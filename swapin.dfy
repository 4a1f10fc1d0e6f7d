/*
 * read_from_swap (vm/swapfile.c:152-200): bring a swapped-out page back into
 * a fresh frame. VOP_READ is not modelled; whether it succeeded is a
 * parameter. The tlb_read calls the source makes around TLB_updating only
 * read registers and are left out.
 */
module SwapIn {
  import opened VmDefs
  import opened Tlb
  import opened Coremap
  import opened PageTable
  import opened AddrSpaces
  import opened SwapFile
  import opened MachineState
  import opened FrameAlloc
  import opened TlbRefill

  /* The swap store after get_global_swapfile. */
  function SwapOpened(s: SwapState): (r: SwapState)
    requires |s.slots| == SWAP_SLOTS
    ensures r.ready && |r.slots| == SWAP_SLOTS
    ensures s.ready ==> r == s
  {
    SwapState(true, Initialised(s.ready, s.slots), if s.ready then s.offset else 0)
  }

  /* When read_from_swap is called (page_fault's COPY_FROM_SWAP case): the
     address space is set up, the PTE at l is in swap and not resident, and
     its page number is a page address that looks itself up at l. */
  ghost predicate CanSwapIn(m: Machine, l: PteLoc)
  {
    MachineOk(m) && m.coremapReady && m.view.Some? && Defined(m.view.value) && InRange(m.view.value, l) &&
    !Resident(PteAt(m.view.value, l)) && Has(PteAt(m.view.value, l).flag, IN_SWAP) &&
    PteAt(m.view.value, l).pageNumber % PAGE_SIZE == 0 &&
    LookupSafe(m.view, PteAt(m.view.value, l).pageNumber) &&
    Locate(m.view, PteAt(m.view.value, l).pageNumber) == Some(l)
  }

  /* The state after read_from_swap's frame has been bound to the PTE:
     frame k occupied and owned, the PTE pointing at it. */
  function BindFrame(m: Machine, l: PteLoc, k: nat, cur: ProcId, tag: int): (r: Machine)
    requires MachineOk(m) && m.view.Some? && InRange(m.view.value, l) && k < |m.frames|
    ensures MachineOk(r) && r.view.Some? && SameLayout(r.view.value, m.view.value)
    ensures r.tlb == m.tlb && r.swap == m.swap && r.nextVictim == m.nextVictim && r.coremapReady == m.coremapReady
    ensures |r.frames| == |m.frames| && forall j :: 0 <= j < |m.frames| ==> r.frames[j].paddr == m.frames[j].paddr
    ensures r.frames[k].occupied && r.frames[k].owner == Some(cur)
    ensures PteAt(r.view.value, l) == PteAt(m.view.value, l).(cmIndex := k)
  {
    var v := m.view.value;
    var q := PteAt(v, l).(cmIndex := k);
    var r := m.(frames := m.frames[k := Owned(m.frames[k], cur, tag)], view := Some(SetPte(v, l, q)));
    assert LaidOut(r.frames) by {
      assert forall j :: 0 <= j < |m.frames| ==> r.frames[j].paddr == m.frames[j].paddr;
    }
    assert PtesInTable(r.view, |r.frames|) by {
      SetPteKeepsFramesInTableAt(v, l, q, |m.frames|);
    }
    r
  }

  /* The PTE at l with VALID set (pte->flag |= VALID). */
  function MarkValid(m: Machine, l: PteLoc): (r: Machine)
    requires MachineOk(m) && m.view.Some? && InRange(m.view.value, l)
    requires PteAt(m.view.value, l).cmIndex < |m.frames|
    ensures MachineOk(r) && r.view.Some? && SameLayout(r.view.value, m.view.value)
    ensures r.frames == m.frames && r.tlb == m.tlb && r.swap == m.swap && r.nextVictim == m.nextVictim
    ensures r.coremapReady == m.coremapReady
    ensures var p := PteAt(m.view.value, l); PteAt(r.view.value, l) == p.(flag := p.flag | VALID)
  {
    var v := m.view.value;
    var p := PteAt(v, l);
    SetPteKeepsFramesInTableAt(v, l, p.(flag := p.flag | VALID), |m.frames|);
    m.(view := Some(SetPte(v, l, p.(flag := p.flag | VALID))))
  }

  /* The frame found by getppages is still a frame of the table, and the
     swapped-out PTE is untouched by any eviction it did. */
  lemma AllocKeepsSwapInTarget(m0: Machine, l: PteLoc, tag: int, cur: ProcId, ioOk: bool, stolen: nat)
    requires MachineOk(m0) && m0.coremapReady && m0.view.Some? && InRange(m0.view.value, l)
    requires !Resident(PteAt(m0.view.value, l))
    ensures var r := GetPPagesSpec(m0, 1, true, tag, cur, ioOk, stolen);
      r.1.view.Some? && InRange(r.1.view.value, l) && PteAt(r.1.view.value, l) == PteAt(m0.view.value, l) &&
      (r.0.Done? ==> IsFrameAddr(r.1.frames, r.0.value))
  {
    GetFramesKeepsNonResident(m0, 1, true, tag, cur, ioOk, l);
    var r := GetPPagesSpec(m0, 1, true, tag, cur, ioOk, stolen);
    if r.0.Done? {
      var k :| 0 <= k < |m0.frames| && m0.frames[k].paddr == r.0.value;
      assert r.1.frames[k].paddr == r.0.value;
    }
  }

  /* The rest of read_from_swap once a frame at paddr is in hand. */
  function BindAndInstall(m1: Machine, l: PteLoc, paddr: nat, cur: ProcId, tag: int): (r: Machine)
    requires MachineOk(m1) && m1.view.Some? && Defined(m1.view.value) && InRange(m1.view.value, l)
    requires IsFrameAddr(m1.frames, paddr) && PteAt(m1.view.value, l).pageNumber % PAGE_SIZE == 0
    requires LookupSafe(m1.view, PteAt(m1.view.value, l).pageNumber)
    requires Locate(m1.view, PteAt(m1.view.value, l).pageNumber) == Some(l)
    ensures MachineOk(r)
  {
    var pn := PteAt(m1.view.value, l).pageNumber;
    FrameAddrAligned(m1, paddr);
    var k := (paddr - m1.frames[0].paddr) / PAGE_SIZE;
    var m2 := BindFrame(m1, l, k, cur, tag);
    SameLayoutLookups(m2.view.value, m1.view.value, pn);
    var m3 := TlbUpdateSpec(m2, pn, paddr).1;
    SameLayoutLookups(m3.view.value, m1.view.value, pn);
    MarkValid(m3, l)
  }

  /* read_from_swap: a frame from getppages (which may evict another page),
     tagged with the page's segment and bound to the PTE; the page installed
     in the TLB; VALID set before the read, so a failed read (-1) still
     leaves the page resident. IN_SWAP and the slot are kept: the slot is not
     freed. */
  function ReadFromSwapSpec(m: Machine, l: PteLoc, cur: ProcId, ioOk: bool, readOk: bool, stolen: nat)
    : (r: (Outcome<int>, Machine))
    requires CanSwapIn(m, l)
    ensures MachineOk(r.1)
  {
    var v := m.view.value;
    var p := PteAt(v, l);
    var m0 := m.(swap := SwapOpened(m.swap));
    var tag := SegmentType(m.view, p.pageNumber);
    var (o, m1) := GetPPagesSpec(m0, 1, true, tag, cur, ioOk, stolen);
    match o
    case Stop(h) => (Stop(h), m1)
    case Done(paddr) =>
      AllocKeepsSwapInTarget(m0, l, tag, cur, ioOk, stolen);
      SameLayoutLookups(m1.view.value, v, p.pageNumber);
      (Done(if readOk then 0 else -1), BindAndInstall(m1, l, paddr, cur, tag))
  }

  /* TLB_updating for a page in swap always installs it: the lookup reports
     a fault, but IN_SWAP lets it through. */
  lemma RefillSwappedPage(m: Machine, l: PteLoc, paddr: nat)
    requires MachineOk(m) && m.view.Some? && Defined(m.view.value) && InRange(m.view.value, l)
    requires PteAt(m.view.value, l).pageNumber % PAGE_SIZE == 0 && paddr % PAGE_SIZE == 0
    requires LookupSafe(m.view, PteAt(m.view.value, l).pageNumber)
    requires Locate(m.view, PteAt(m.view.value, l).pageNumber) == Some(l)
    requires Has(PteAt(m.view.value, l).flag, IN_SWAP)
    ensures var pn := PteAt(m.view.value, l).pageNumber;
      var res := TlbUpdateSpec(m, pn, paddr);
      res.0 == 0 && Probe(res.1.tlb, pn) >= 0 &&
      (Probe(m.tlb, pn) < 0 ==> res.1.tlb[Probe(res.1.tlb, pn)].paddr == paddr)
  {
    RefillMapsPage(m, PteAt(m.view.value, l).pageNumber, paddr);
  }

  /* Once a frame is in hand the page is resident in it, owned by the
     current process, still recorded in its swap slot, and mapped by the
     TLB (to that frame, unless a mapping was already there). */
  lemma BindAndInstallMapsPage(m1: Machine, l: PteLoc, paddr: nat, cur: ProcId, tag: int)
    requires MachineOk(m1) && m1.view.Some? && Defined(m1.view.value) && InRange(m1.view.value, l)
    requires IsFrameAddr(m1.frames, paddr) && PteAt(m1.view.value, l).pageNumber % PAGE_SIZE == 0
    requires LookupSafe(m1.view, PteAt(m1.view.value, l).pageNumber)
    requires Locate(m1.view, PteAt(m1.view.value, l).pageNumber) == Some(l)
    requires Has(PteAt(m1.view.value, l).flag, IN_SWAP)
    ensures var r := BindAndInstall(m1, l, paddr, cur, tag);
      var p := PteAt(m1.view.value, l);
      var q := PteAt(r.view.value, l);
      Resident(q) && Has(q.flag, IN_SWAP) && q.swapIndex == p.swapIndex && q.pageNumber == p.pageNumber &&
      q.cmIndex < |r.frames| && r.frames[q.cmIndex].paddr == paddr &&
      r.frames[q.cmIndex].occupied && r.frames[q.cmIndex].owner == Some(cur) &&
      Probe(r.tlb, p.pageNumber) >= 0 &&
      (Probe(m1.tlb, p.pageNumber) < 0 ==> r.tlb[Probe(r.tlb, p.pageNumber)].paddr == paddr)
  {
    var p := PteAt(m1.view.value, l);
    var pn := p.pageNumber;
    FrameAddrAligned(m1, paddr);
    var k := (paddr - m1.frames[0].paddr) / PAGE_SIZE;
    var m2 := BindFrame(m1, l, k, cur, tag);
    SameLayoutLookups(m2.view.value, m1.view.value, pn);
    RefillSwappedPage(m2, l, paddr);
    var m3 := TlbUpdateSpec(m2, pn, paddr).1;
    var q3 := PteAt(m3.view.value, l);
    assert q3 == p.(cmIndex := k) || q3 == p.(cmIndex := k, flag := p.flag | MODIFIED);
    assert (p.flag | MODIFIED | VALID) & IN_SWAP == p.flag & IN_SWAP;
    assert (p.flag | VALID) & IN_SWAP == p.flag & IN_SWAP;
    assert (q3.flag | VALID) & VALID == VALID;
  }

  /* read_from_swap's outcome: 0 exactly when the read succeeded, and either
     way the page is resident, mapped, and still holds its swap slot. */
  lemma SwapInMakesResident(m: Machine, l: PteLoc, cur: ProcId, ioOk: bool, readOk: bool, stolen: nat)
    requires CanSwapIn(m, l)
    ensures var r := ReadFromSwapSpec(m, l, cur, ioOk, readOk, stolen);
      var p := PteAt(m.view.value, l);
      r.0.Done? ==>
        (r.0.value == 0 <==> readOk) &&
        r.1.view.Some? && InRange(r.1.view.value, l) &&
        Resident(PteAt(r.1.view.value, l)) && Has(PteAt(r.1.view.value, l).flag, IN_SWAP) &&
        PteAt(r.1.view.value, l).swapIndex == p.swapIndex &&
        r.1.frames[PteAt(r.1.view.value, l).cmIndex].owner == Some(cur) &&
        Probe(r.1.tlb, p.pageNumber) >= 0
  {
    var v := m.view.value;
    var p := PteAt(v, l);
    var m0 := m.(swap := SwapOpened(m.swap));
    var tag := SegmentType(m.view, p.pageNumber);
    var res := GetPPagesSpec(m0, 1, true, tag, cur, ioOk, stolen);
    if res.0.Done? {
      AllocKeepsSwapInTarget(m0, l, tag, cur, ioOk, stolen);
      SameLayoutLookups(res.1.view.value, v, p.pageNumber);
      BindAndInstallMapsPage(res.1, l, res.0.value, cur, tag);
    }
  }

  /* Swap-in touches only the frame index and the VALID and MODIFIED bits:
     each PTE keeps its slot and its IN_SWAP bit. */
  ghost predicate KeepsSwapFields(v: AsView, v': AsView)
  {
    SameLayout(v', v) &&
    forall l :: InRange(v, l) ==>
      PteAt(v', l).swapIndex == PteAt(v, l).swapIndex && PteAt(v', l).flag & IN_SWAP == PteAt(v, l).flag & IN_SWAP
  }

  lemma KeepsSwapFieldsConsistent(v: AsView, v': AsView, slots: seq<bool>)
    requires KeepsSwapFields(v, v') && SwapConsistent(v, slots)
    ensures SwapConsistent(v', slots)
  {
    SameLayoutLookups(v', v, 0);
    forall l | InRange(v', l) && Has(PteAt(v', l).flag, IN_SWAP)
      ensures 0 <= PteAt(v', l).swapIndex < SWAP_SLOTS && !slots[PteAt(v', l).swapIndex]
    {
      assert InRange(v, l);
    }
    forall l, n | InRange(v', l) && InRange(v', n) && l != n &&
                  Has(PteAt(v', l).flag, IN_SWAP) && Has(PteAt(v', n).flag, IN_SWAP)
      ensures PteAt(v', l).swapIndex != PteAt(v', n).swapIndex
    {
      assert InRange(v, l) && InRange(v, n);
    }
  }

  lemma FlagBitsKeepSwap(f: Flag)
    ensures (f | MODIFIED) & IN_SWAP == f & IN_SWAP && (f | VALID) & IN_SWAP == f & IN_SWAP
  {
  }

  lemma BindAndInstallKeepsSwapFields(m1: Machine, l: PteLoc, paddr: nat, cur: ProcId, tag: int)
    requires MachineOk(m1) && m1.view.Some? && Defined(m1.view.value) && InRange(m1.view.value, l)
    requires IsFrameAddr(m1.frames, paddr) && PteAt(m1.view.value, l).pageNumber % PAGE_SIZE == 0
    requires LookupSafe(m1.view, PteAt(m1.view.value, l).pageNumber)
    requires Locate(m1.view, PteAt(m1.view.value, l).pageNumber) == Some(l)
    ensures var r := BindAndInstall(m1, l, paddr, cur, tag);
      r.view.Some? && KeepsSwapFields(m1.view.value, r.view.value) && r.swap == m1.swap
  {
    var v1 := m1.view.value;
    var pn := PteAt(v1, l).pageNumber;
    BoundPageCanRefill(m1, l, paddr, cur, tag);
    var k := (paddr - m1.frames[0].paddr) / PAGE_SIZE;
    var m2 := BindFrame(m1, l, k, cur, tag);
    var m3 := TlbUpdateSpec(m2, pn, paddr).1;
    var r := MarkValid(m3, l);
    var v2, v3, v4 := m2.view.value, m3.view.value, r.view.value;
    forall j | InRange(v1, j)
      ensures PteAt(v4, j).swapIndex == PteAt(v1, j).swapIndex && PteAt(v4, j).flag & IN_SWAP == PteAt(v1, j).flag & IN_SWAP
    {
      var p1 := PteAt(v1, j);
      var p2 := PteAt(v2, j);
      assert p2.swapIndex == p1.swapIndex && p2.flag == p1.flag;
      assert InRange(v2, j);
      var p3 := PteAt(v3, j);
      FlagBitsKeepSwap(p2.flag);
      assert p3.swapIndex == p2.swapIndex && p3.flag & IN_SWAP == p2.flag & IN_SWAP;
      assert InRange(v3, j);
      FlagBitsKeepSwap(p3.flag);
      assert PteAt(v4, j).swapIndex == p3.swapIndex && PteAt(v4, j).flag & IN_SWAP == p3.flag & IN_SWAP;
    }
  }

  /* After the frame is bound, TLB_updating may be called for the page, and
     the PTE still names the frame. */
  lemma BoundPageCanRefill(m1: Machine, l: PteLoc, paddr: nat, cur: ProcId, tag: int)
    requires MachineOk(m1) && m1.view.Some? && Defined(m1.view.value) && InRange(m1.view.value, l)
    requires IsFrameAddr(m1.frames, paddr) && PteAt(m1.view.value, l).pageNumber % PAGE_SIZE == 0
    requires LookupSafe(m1.view, PteAt(m1.view.value, l).pageNumber)
    requires Locate(m1.view, PteAt(m1.view.value, l).pageNumber) == Some(l)
    ensures |m1.frames| > 0 && paddr >= m1.frames[0].paddr
    ensures var k := (paddr - m1.frames[0].paddr) / PAGE_SIZE;
      var pn := PteAt(m1.view.value, l).pageNumber;
      k < |m1.frames| &&
      var m2 := BindFrame(m1, l, k, cur, tag);
      CanRefill(m2, pn, paddr) && Locate(m2.view, PageAlign(pn)) == Some(l) &&
      BindAndInstall(m1, l, paddr, cur, tag) == MarkValid(TlbUpdateSpec(m2, pn, paddr).1, l)
  {
    var pn := PteAt(m1.view.value, l).pageNumber;
    FrameAddrAligned(m1, paddr);
    var k := (paddr - m1.frames[0].paddr) / PAGE_SIZE;
    var m2 := BindFrame(m1, l, k, cur, tag);
    SameLayoutLookups(m2.view.value, m1.view.value, pn);
  }

  /* Setting VALID a second time changes nothing. */
  lemma MarkValidIdempotent(m: Machine, l: PteLoc)
    requires MachineOk(m) && m.view.Some? && InRange(m.view.value, l)
    requires PteAt(m.view.value, l).cmIndex < |m.frames|
    ensures MarkValid(MarkValid(m, l), l) == MarkValid(m, l)
  {
    var p := PteAt(m.view.value, l);
    assert p.flag | VALID | VALID == p.flag | VALID;
    assert SetPte(SetPte(m.view.value, l, p.(flag := p.flag | VALID)), l, p.(flag := p.flag | VALID)) ==
      SetPte(m.view.value, l, p.(flag := p.flag | VALID));
  }

  /* coremap[frame_index] taken for the current process and pte->cm_index
     set to it. */
  method BindSwapInFrame(l: PteLoc, index: nat, tag: int, cur: ProcId,
                         space: AddrSpace, ft: FrameTable, swap: SwapStore, tlb: Tlb)
    requires Ready(ft, space, swap, tlb) && ft.ready && InRange(space.View(), l) && index < ft.frames.Length
    modifies ft.frames, space
    ensures Ready(ft, space, swap, tlb) && MachineOk(old(Snapshot(ft, space, swap, tlb)))
    ensures Snapshot(ft, space, swap, tlb) == BindFrame(old(Snapshot(ft, space, swap, tlb)), l, index, cur, tag)
  {
    ReadyIsOk(ft, space, swap, tlb);
    ft.SetCoremapProc(index, tag, cur);
    var p := PteAt(space.View(), l);
    space.Store(l, p.(cmIndex := index));
  }

  /* pte->flag |= VALID. */
  method SetValid(l: PteLoc, space: AddrSpace, ft: FrameTable, swap: SwapStore, tlb: Tlb)
    requires Ready(ft, space, swap, tlb) && InRange(space.View(), l)
    requires PteAt(space.View(), l).cmIndex < ft.frames.Length
    modifies space
    ensures Ready(ft, space, swap, tlb) && MachineOk(old(Snapshot(ft, space, swap, tlb)))
    ensures Snapshot(ft, space, swap, tlb) == MarkValid(old(Snapshot(ft, space, swap, tlb)), l)
  {
    ReadyIsOk(ft, space, swap, tlb);
    var p := PteAt(space.View(), l);
    space.Store(l, p.(flag := p.flag | VALID));
  }

  /* read_from_swap from the frame in hand to VALID: the frame bound, the
     page installed in the TLB, the PTE marked valid. */
  method InstallSwappedPage(l: PteLoc, paddr: nat, tag: int, cur: ProcId,
                            space: AddrSpace, ft: FrameTable, swap: SwapStore, tlb: Tlb)
    requires Ready(ft, space, swap, tlb) && ft.ready
    requires var m1 := Snapshot(ft, space, swap, tlb);
      m1.view.Some? && Defined(m1.view.value) && InRange(m1.view.value, l) &&
      IsFrameAddr(m1.frames, paddr) && PteAt(m1.view.value, l).pageNumber % PAGE_SIZE == 0 &&
      LookupSafe(m1.view, PteAt(m1.view.value, l).pageNumber) &&
      Locate(m1.view, PteAt(m1.view.value, l).pageNumber) == Some(l)
    modifies ft.frames, space, tlb, tlb.slots
    ensures Ready(ft, space, swap, tlb) && tlb.slots == old(tlb.slots) && MachineOk(old(Snapshot(ft, space, swap, tlb)))
    ensures Snapshot(ft, space, swap, tlb) == BindAndInstall(old(Snapshot(ft, space, swap, tlb)), l, paddr, cur, tag)
  {
    ghost var m1 := Snapshot(ft, space, swap, tlb);
    ReadyIsOk(ft, space, swap, tlb);
    var pn := PteAt(space.View(), l).pageNumber;
    BoundPageCanRefill(m1, l, paddr, cur, tag);
    var index := (paddr - ft.frames[0].paddr) / PAGE_SIZE;
    BindSwapInFrame(l, index, tag, cur, space, ft, swap, tlb);
    ghost var m2 := Snapshot(ft, space, swap, tlb);
    var _ := TlbUpdating(pn, paddr, ft, space, swap, tlb);
    ghost var m3 := Snapshot(ft, space, swap, tlb);
    assert m3 == TlbUpdateSpec(m2, pn, paddr).1;
    SetValid(l, space, ft, swap, tlb);
  }

  /* The read and its result: -1 if VOP_READ failed, else VALID set once
     more (a no-op) and 0. */
  method FinishSwapIn(l: PteLoc, paddr: nat, tag: int, cur: ProcId, readOk: bool,
                      space: AddrSpace, ft: FrameTable, swap: SwapStore, tlb: Tlb)
    returns (o: Outcome<int>)
    requires Ready(ft, space, swap, tlb) && ft.ready
    requires var m1 := Snapshot(ft, space, swap, tlb);
      m1.view.Some? && Defined(m1.view.value) && InRange(m1.view.value, l) &&
      IsFrameAddr(m1.frames, paddr) && PteAt(m1.view.value, l).pageNumber % PAGE_SIZE == 0 &&
      LookupSafe(m1.view, PteAt(m1.view.value, l).pageNumber) &&
      Locate(m1.view, PteAt(m1.view.value, l).pageNumber) == Some(l)
    modifies ft.frames, space, tlb, tlb.slots
    ensures Ready(ft, space, swap, tlb) && tlb.slots == old(tlb.slots) && MachineOk(old(Snapshot(ft, space, swap, tlb)))
    ensures o == Done(if readOk then 0 else -1)
    ensures Snapshot(ft, space, swap, tlb) == BindAndInstall(old(Snapshot(ft, space, swap, tlb)), l, paddr, cur, tag)
  {
    ghost var m1 := Snapshot(ft, space, swap, tlb);
    InstallSwappedPage(l, paddr, tag, cur, space, ft, swap, tlb);
    if !readOk {
      return Done(-1);
    }
    ghost var m4 := Snapshot(ft, space, swap, tlb);
    BoundPageCanRefill(m1, l, paddr, cur, tag);
    MarkValidIdempotent(TlbUpdateSpec(BindFrame(m1, l, (paddr - m1.frames[0].paddr) / PAGE_SIZE, cur, tag),
                                      PteAt(m1.view.value, l).pageNumber, paddr).1, l);
    SetValid(l, space, ft, swap, tlb);
    assert Snapshot(ft, space, swap, tlb) == m4;
    return Done(0);
  }

  /* read_from_swap on the objects. The frame index is recovered from the
     address getppages returned, as the source does; VALID is set before the
     read and once more after a successful one. */
  method ReadFromSwap(l: PteLoc, cur: ProcId, space: AddrSpace, ft: FrameTable, swap: SwapStore, tlb: Tlb,
                      ioOk: bool, readOk: bool, stolen: nat)
    returns (o: Outcome<int>)
    requires Ready(ft, space, swap, tlb) && CanSwapIn(Snapshot(ft, space, swap, tlb), l)
    modifies ft.frames, space, swap, swap.slots, tlb, tlb.slots
    ensures Ready(ft, space, swap, tlb) && swap.slots == old(swap.slots) && tlb.slots == old(tlb.slots)
    ensures (o, Snapshot(ft, space, swap, tlb)) ==
      ReadFromSwapSpec(old(Snapshot(ft, space, swap, tlb)), l, cur, ioOk, readOk, stolen)
  {
    ghost var m := Snapshot(ft, space, swap, tlb);
    swap.GetGlobalSwapfile();
    ghost var m0 := Snapshot(ft, space, swap, tlb);
    assert m0 == m.(swap := SwapOpened(m.swap));
    var p := PteAt(space.View(), l);
    var tag := SegmentType(ViewOf(space), p.pageNumber);
    var a := GetPPages(1, true, tag, cur, space, ft, swap, tlb, ioOk, stolen);
    if a.Stop? {
      return Stop(a.why);
    }
    ghost var m1 := Snapshot(ft, space, swap, tlb);
    AllocKeepsSwapInTarget(m0, l, tag, cur, ioOk, stolen);
    SameLayoutLookups(m1.view.value, m.view.value, p.pageNumber);
    o := FinishSwapIn(l, a.value, tag, cur, readOk, space, ft, swap, tlb);
  }

  /* Swap-in keeps the swap bookkeeping consistent: the slot table changes
     only by an eviction's write_to_swap, and every PTE keeps its slot and its
     IN_SWAP bit. In particular the swapped-in page's slot stays taken. */
  lemma SwapInKeepsSwapConsistent(m: Machine, l: PteLoc, cur: ProcId, ioOk: bool, readOk: bool, stolen: nat)
    requires CanSwapIn(m, l) && SwapConsistent(m.view.value, m.swap.slots)
    requires m.swap.ready
    ensures var r := ReadFromSwapSpec(m, l, cur, ioOk, readOk, stolen).1;
      r.view.Some? && SwapConsistent(r.view.value, r.swap.slots)
  {
    var v := m.view.value;
    var p := PteAt(v, l);
    var m0 := m.(swap := SwapOpened(m.swap));
    assert m0 == m;
    var tag := SegmentType(m.view, p.pageNumber);
    var res := GetPPagesSpec(m0, 1, true, tag, cur, ioOk, stolen);
    GetFramesKeepsSwapConsistent(m0, 1, true, tag, cur, ioOk);
    if res.0.Done? {
      AllocKeepsSwapInTarget(m0, l, tag, cur, ioOk, stolen);
      SameLayoutLookups(res.1.view.value, v, p.pageNumber);
      BindAndInstallKeepsSwapFields(res.1, l, res.0.value, cur, tag);
      var r := BindAndInstall(res.1, l, res.0.value, cur, tag);
      KeepsSwapFieldsConsistent(res.1.view.value, r.view.value, res.1.swap.slots);
    }
  }
}
