/*
 * Physical page allocation: coremap_getFrames (vm/coremap.c:89-157), with its
 * first fit and its eviction path, getppages (vm/vm.c:421-450) and
 * alloc_kpages (vm/vm.c:68-88). ram_stealmem, used before the frame table
 * exists, is a parameter: the address it returned, 0 when memory ran out.
 */
module FrameAlloc {
  import opened VmDefs
  import opened Tlb
  import opened Coremap
  import opened PageTable
  import opened AddrSpaces
  import opened SwapFile
  import opened MachineState

  /* The victim frame as coremap_getFrames hands it over: a new owner and
     swappable flag; still occupied, same length and tag. */
  function Reassigned(f: Frame, cur: ProcId, swappable: bool): Frame
  {
    f.(owner := Some(cur), swappable := swappable)
  }

  /* coremap_getFrames: the lowest usable run of n free frames if there is
     one; else Pvictim's page of the current address space, whose frame is
     handed to the caller after write_to_swap (whose result is ignored). The
     size test at the top has no effect: it only resets an address that is
     already 0. */
  function GetFramesSpec(m: Machine, n: nat, swappable: bool, tag: int, cur: ProcId, ioOk: bool)
    : (r: (Outcome<nat>, Machine))
    requires MachineOk(m)
    ensures MachineOk(r.1) && Shaped(m, r.1)
    ensures r.0.Done? ==> IsFrameAddr(m.frames, r.0.value)
  {
    var i := FirstFit(m.frames, n);
    if i >= 0 then (Done(m.frames[i].paddr), m.(frames := ClaimRun(m.frames, i, n, cur, swappable, tag)))
    else match VictimSpec(m.view, tag)
      case Stop(h) => (Stop(h), m)
      case Done(None) => (Stop(NullDeref), m)   // pte->cm_index through a NULL pointer
      case Done(Some(l)) =>
        VictimIsResident(m.view, tag);
        var p := PteAt(m.view.value, l);
        var m1 := m.(frames := m.frames[p.cmIndex := Reassigned(m.frames[p.cmIndex], cur, swappable)]);
        var m2 := SwapOutMachine(m1, l, ioOk).0;
        assert PtesInTable(m2.view, |m2.frames|) by {
          var w := SwapOutSpec(p, Initialised(m1.swap.ready, m1.swap.slots),
                               if m1.swap.ready then m1.swap.offset else 0, ioOk);
          SwapOutOutcomes(p, Initialised(m1.swap.ready, m1.swap.slots),
                          if m1.swap.ready then m1.swap.offset else 0, ioOk);
          SetPteKeepsFramesInTable(m.view.value, l, w.pte, |m.frames|);
        }
        (Done(m.frames[p.cmIndex].paddr), m2)
  }

  /* What allocation never changes: the table's size and frame addresses,
     and the layout of the address space. */
  ghost predicate Shaped(m: Machine, m': Machine)
  {
    |m'.frames| == |m.frames| && m'.coremapReady == m.coremapReady &&
    (forall k :: 0 <= k < |m.frames| ==> m'.frames[k].paddr == m.frames[k].paddr) &&
    m'.view.Some? == m.view.Some? && (m.view.Some? ==> SameLayout(m'.view.value, m.view.value))
  }

  /* Allocation rewrites at most the victim's PTE, which was resident: a
     PTE that is not resident is left as it was. */
  lemma GetFramesKeepsNonResident(m: Machine, n: nat, swappable: bool, tag: int, cur: ProcId, ioOk: bool, l: PteLoc)
    requires MachineOk(m) && m.view.Some? && InRange(m.view.value, l) && !Resident(PteAt(m.view.value, l))
    ensures var r := GetFramesSpec(m, n, swappable, tag, cur, ioOk).1;
      r.view.Some? && InRange(r.view.value, l) && PteAt(r.view.value, l) == PteAt(m.view.value, l)
  {
    if FirstFit(m.frames, n) < 0 {
      match VictimSpec(m.view, tag)
      case Stop(h) =>
      case Done(None) =>
      case Done(Some(victim)) =>
        VictimIsResident(m.view, tag);
        assert victim != l;
    }
  }

  /* Replacing a PTE by one with the same frame index, or a non-resident one,
     keeps every PTE naming a frame of the table. */
  lemma SetPteKeepsFramesInTable(v: AsView, l: PteLoc, q: Pte, n: nat)
    requires PtesInTable(Some(v), n) && InRange(v, l)
    requires Resident(q) ==> Resident(PteAt(v, l)) && q.cmIndex == PteAt(v, l).cmIndex
    ensures PtesInTable(Some(SetPte(v, l, q)), n)
  {
    var v' := SetPte(v, l, q);
    forall m | InRange(v', m) && Resident(PteAt(v', m))
      ensures PteAt(v', m).cmIndex < n
    {
      if m != l {
        assert PteAt(v', m) == PteAt(v, m);
        PteInTable(v, n, m);
      } else {
        PteInTable(v, n, l);
      }
    }
    assert forall i :: 0 <= i < |v'.text| && Resident(v'.text[i]) ==> PteAt(v', PteLoc(Text, i)).cmIndex < n;
    assert forall i :: 0 <= i < |v'.data| && Resident(v'.data[i]) ==> PteAt(v', PteLoc(Data, i)).cmIndex < n;
    assert forall i :: 0 <= i < |v'.stack| && Resident(v'.stack[i]) ==> PteAt(v', PteLoc(Stack, i)).cmIndex < n;
  }

  /* With a run free, the caller gets the lowest run's first frame and the
     run becomes its own; nothing else changes. */
  lemma GetFramesFirstFit(m: Machine, n: nat, swappable: bool, tag: int, cur: ProcId, ioOk: bool)
    requires MachineOk(m) && FirstFit(m.frames, n) >= 0
    ensures var i := FirstFit(m.frames, n);
      var r := GetFramesSpec(m, n, swappable, tag, cur, ioOk);
      r.0 == Done(m.frames[i].paddr) && Fits(m.frames, i, n) &&
      (forall j :: i <= j < i + n ==> r.1.frames[j].occupied && r.1.frames[j].owner == Some(cur)) &&
      (forall j :: 0 <= j < |m.frames| && !(i <= j < i + n) ==> r.1.frames[j] == m.frames[j]) &&
      r.1.view == m.view && r.1.swap == m.swap && r.1.tlb == m.tlb
  {
  }

  /* With no run free, the caller gets the frame of Pvictim's page. A
     modified page is written out and, if that worked, no longer resident; an
     unmodified page is left resident, still naming the frame just handed to
     the caller. */
  lemma GetFramesEvicts(m: Machine, n: nat, swappable: bool, tag: int, cur: ProcId, ioOk: bool)
    requires MachineOk(m) && FirstFit(m.frames, n) < 0
    requires VictimSpec(m.view, tag).Done? && VictimSpec(m.view, tag).value.Some?
    ensures var l := VictimSpec(m.view, tag).value.value;
      var p := PteAt(m.view.value, l);
      var r := GetFramesSpec(m, n, swappable, tag, cur, ioOk);
      Resident(p) && p.cmIndex < |m.frames| &&
      r.0 == Done(m.frames[p.cmIndex].paddr) &&
      r.1.frames[p.cmIndex].owner == Some(cur) &&
      r.1.frames[p.cmIndex].occupied == m.frames[p.cmIndex].occupied &&
      (!Has(p.flag, MODIFIED) ==> PteAt(r.1.view.value, l) == p) &&
      (Has(p.flag, MODIFIED) && PteAt(r.1.view.value, l) != p ==> !Resident(PteAt(r.1.view.value, l)))
  {
    var l := VictimSpec(m.view, tag).value.value;
    VictimIsResident(m.view, tag);
    PteInTable(m.view.value, |m.frames|, l);
    var p := PteAt(m.view.value, l);
    var m1 := m.(frames := m.frames[p.cmIndex := Reassigned(m.frames[p.cmIndex], cur, swappable)]);
    SwapOutOutcomes(p, Initialised(m1.swap.ready, m1.swap.slots),
                    if m1.swap.ready then m1.swap.offset else 0, ioOk);
  }

  /* Allocation keeps every resident PTE on an occupied frame: first fit only
     claims free frames, and eviction keeps the frame occupied. */
  lemma GetFramesKeepsResidentOccupied(m: Machine, n: nat, swappable: bool, tag: int, cur: ProcId, ioOk: bool)
    requires MachineOk(m) && ResidentOccupied(m)
    ensures ResidentOccupied(GetFramesSpec(m, n, swappable, tag, cur, ioOk).1)
  {
    var i := FirstFit(m.frames, n);
    if i < 0 {
      match VictimSpec(m.view, tag)
      case Stop(h) =>
      case Done(None) =>
      case Done(Some(l)) =>
        VictimIsResident(m.view, tag);
        PteInTable(m.view.value, |m.frames|, l);
        var p := PteAt(m.view.value, l);
        var m1 := m.(frames := m.frames[p.cmIndex := Reassigned(m.frames[p.cmIndex], cur, swappable)]);
        assert ResidentOccupied(m1);
        SwapOutKeepsResidentOccupied(m1, l, ioOk);
    }
  }

  /* Allocation keeps the swap bookkeeping consistent. */
  lemma GetFramesKeepsSwapConsistent(m: Machine, n: nat, swappable: bool, tag: int, cur: ProcId, ioOk: bool)
    requires MachineOk(m) && m.swap.ready && m.view.Some? && SwapConsistent(m.view.value, m.swap.slots)
    ensures var r := GetFramesSpec(m, n, swappable, tag, cur, ioOk).1;
      r.view.Some? && SwapConsistent(r.view.value, r.swap.slots)
  {
    var i := FirstFit(m.frames, n);
    if i < 0 {
      match VictimSpec(m.view, tag)
      case Stop(h) =>
      case Done(None) =>
      case Done(Some(l)) =>
        VictimIsResident(m.view, tag);
        SwapOutKeepsConsistency(m.view.value, m.swap.slots, l, m.swap.offset, ioOk);
    }
  }

  /* getppages: frames from the table once it exists, stolen memory before;
     an address of 0 is a panic. */
  function GetPPagesSpec(m: Machine, npages: nat, swappable: bool, tag: int, cur: ProcId, ioOk: bool, stolen: nat)
    : (r: (Outcome<nat>, Machine))
    requires MachineOk(m)
    ensures MachineOk(r.1) && Shaped(m, r.1)
    ensures r.0.Done? ==> r.0.value != 0
    ensures m.coremapReady && r.0.Done? ==> IsFrameAddr(m.frames, r.0.value)
    ensures !m.coremapReady ==> r == (if stolen == 0 then Stop(KernelPanic) else Done(stolen), m)
  {
    var (o, m') := if m.coremapReady then GetFramesSpec(m, npages, swappable, tag, cur, ioOk) else (Done(stolen), m);
    if o == Done(0) then (Stop(KernelPanic), m') else (o, m')
  }

  /* alloc_kpages: a kernel (non-swappable, tag 9) allocation, returned as a
     KSEG0 address. The source's "return 0" is unreachable, since getppages
     panics instead of returning 0. */
  function AllocKpagesSpec(m: Machine, npages: nat, cur: ProcId, ioOk: bool, stolen: nat): (r: (Outcome<nat>, Machine))
    requires MachineOk(m)
    ensures MachineOk(r.1)
    ensures r.0.Done? ==> r.0.value >= MIPS_KSEG0
  {
    var (o, m') := GetPPagesSpec(m, npages, false, KERNEL_TAG, cur, ioOk, stolen);
    match o
    case Done(pa) =>
      var kva: nat := pa + MIPS_KSEG0;
      (Done(kva), m')
    case Stop(h) => (Stop(h), m')
  }

  /* A kernel allocation never evicts: once no run is free it hangs in
     Pvictim (no segment has tag 9), or faults on the NULL victim when no
     process is running; either way nothing changes. */
  lemma KernelAllocationNeverEvicts(m: Machine, npages: nat, cur: ProcId, ioOk: bool, stolen: nat)
    requires MachineOk(m) && m.coremapReady && FirstFit(m.frames, npages) < 0
    ensures AllocKpagesSpec(m, npages, cur, ioOk, stolen) ==
      (if m.view.Some? then Stop(Spins) else Stop(NullDeref), m)
  {
  }

  /* The methods, on the objects. */

  method GetFrames(n: nat, swappable: bool, tag: int, cur: ProcId, space: AddrSpace?,
                   ft: FrameTable, swap: SwapStore, tlb: Tlb, ioOk: bool) returns (o: Outcome<nat>)
    requires Ready(ft, space, swap, tlb) && ft.ready
    modifies ft.frames, space, swap, swap.slots, tlb.slots
    ensures Ready(ft, space, swap, tlb) && ft.ready && swap.slots == old(swap.slots)
    ensures MachineOk(old(Snapshot(ft, space, swap, tlb)))
    ensures (o, Snapshot(ft, space, swap, tlb)) ==
      GetFramesSpec(old(Snapshot(ft, space, swap, tlb)), n, swappable, tag, cur, ioOk)
  {
    ReadyIsOk(ft, space, swap, tlb);
    ghost var m := Snapshot(ft, space, swap, tlb);
    var found, paddr := ft.ClaimFirstFit(n, swappable, tag, cur);
    if found {
      return Done(paddr);
    }
    var victim := PVictim(space, tag);
    match victim {
      case Stop(h) =>
        return Stop(h);
      case Done(None) =>
        return Stop(NullDeref);
      case Done(Some(l)) =>
        VictimIsResident(ViewOf(space), tag);
        var p := PteAt(space.View(), l);
        PteInTable(space.View(), ft.maxPages, l);
        ghost var fs := ft.frames[..];
        ft.frames[p.cmIndex] := Reassigned(ft.frames[p.cmIndex], cur, swappable);
        assert ft.frames[..] == fs[p.cmIndex := Reassigned(fs[p.cmIndex], cur, swappable)];
        assert LaidOut(ft.frames[..]) by {
          assert forall k :: 0 <= k < ft.maxPages ==> ft.frames[k].paddr == fs[k].paddr;
        }
        paddr := ft.frames[p.cmIndex].paddr;
        var ignored := swap.WriteToSwap(space, l, ft, tlb, ioOk);
        assert Snapshot(ft, space, swap, tlb) == GetFramesSpec(m, n, swappable, tag, cur, ioOk).1;
        return Done(paddr);
    }
  }

  method GetPPages(npages: nat, swappable: bool, tag: int, cur: ProcId, space: AddrSpace?,
                   ft: FrameTable, swap: SwapStore, tlb: Tlb, ioOk: bool, stolen: nat)
    returns (o: Outcome<nat>)
    requires Ready(ft, space, swap, tlb)
    modifies ft.frames, space, swap, swap.slots, tlb.slots
    ensures Ready(ft, space, swap, tlb) && ft.ready == old(ft.ready) && swap.slots == old(swap.slots)
    ensures MachineOk(old(Snapshot(ft, space, swap, tlb)))
    ensures (o, Snapshot(ft, space, swap, tlb)) ==
      GetPPagesSpec(old(Snapshot(ft, space, swap, tlb)), npages, swappable, tag, cur, ioOk, stolen)
  {
    ReadyIsOk(ft, space, swap, tlb);
    if ft.CoremapExists() {
      o := GetFrames(npages, swappable, tag, cur, space, ft, swap, tlb, ioOk);
    } else {
      o := Done(stolen);
    }
    if o == Done(0) {
      o := Stop(KernelPanic);
    }
  }

  method AllocKpages(npages: nat, cur: ProcId, space: AddrSpace?,
                     ft: FrameTable, swap: SwapStore, tlb: Tlb, ioOk: bool, stolen: nat)
    returns (o: Outcome<nat>)
    requires Ready(ft, space, swap, tlb)
    modifies ft.frames, space, swap, swap.slots, tlb.slots
    ensures Ready(ft, space, swap, tlb) && ft.ready == old(ft.ready) && swap.slots == old(swap.slots)
    ensures MachineOk(old(Snapshot(ft, space, swap, tlb)))
    ensures (o, Snapshot(ft, space, swap, tlb)) ==
      AllocKpagesSpec(old(Snapshot(ft, space, swap, tlb)), npages, cur, ioOk, stolen)
  {
    var pa := GetPPages(npages, false, KERNEL_TAG, cur, space, ft, swap, tlb, ioOk, stolen);
    match pa {
      case Done(a) => o := Done(a + MIPS_KSEG0);
      case Stop(h) => o := Stop(h);
    }
  }
}
