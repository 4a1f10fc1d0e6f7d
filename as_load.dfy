/*
 * as_prepare_load and as_copy (vm/addrspace.c:375-410, 122-168): physical
 * runs for the text, data and stack of a second address space, taken with
 * getppages while another address space is current. The zero-filling of
 * as_zero_region and the memmove of as_copy move bytes only and are not
 * modelled.
 */
module AsLoad {
  import opened VmDefs
  import opened Tlb
  import opened Coremap
  import opened PageTable
  import opened AddrSpaces
  import opened SwapFile
  import opened MachineState
  import opened FrameAlloc

  /* The three addresses ram_stealmem would hand out before the frame table
     exists, one per getppages call. */
  datatype Stolen = Stolen(text: nat, data: nat, stack: nat)

  /* What as_prepare_load leaves behind. */
  datatype Prepared = Prepared(o: Outcome<Status>, space: AsView, m: Machine)

  /* as_prepare_load on an address space value nv (not the current one):
     text, data and stack runs in that order, each with its segment's tag.
     getppages never returns 0 (it panics instead), so the ENOMEM returns
     cannot be reached. */
  function AsPrepareLoadSpec(m: Machine, nv: AsView, cur: ProcId, ioOk: bool, stolen: Stolen): (r: Prepared)
    requires MachineOk(m) && nv.pbase1 == 0 && nv.pbase2 == 0 && nv.stackpbase == 0
    ensures MachineOk(r.m) && Shaped(m, r.m)
    ensures r.space.(pbase1 := 0, pbase2 := 0, stackpbase := 0) == nv
  {
    var (o1, m1) := GetPPagesSpec(m, nv.npages1, true, TEXT, cur, ioOk, stolen.text);
    match o1
    case Stop(h) => Prepared(Stop(h), nv, m1)
    case Done(p1) =>
      var (o2, m2) := GetPPagesSpec(m1, nv.npages2, true, DATA, cur, ioOk, stolen.data);
      ShapedTrans(m, m1, m2);
      match o2
      case Stop(h) => Prepared(Stop(h), nv.(pbase1 := p1), m2)
      case Done(p2) =>
        var (o3, m3) := GetPPagesSpec(m2, STACK_PAGES, true, STACK, cur, ioOk, stolen.stack);
        ShapedTrans(m, m2, m3);
        match o3
        case Stop(h) => Prepared(Stop(h), nv.(pbase1 := p1, pbase2 := p2), m3)
        case Done(p3) => Prepared(Done(Ok), nv.(pbase1 := p1, pbase2 := p2, stackpbase := p3), m3)
  }

  lemma ShapedTrans(a: Machine, b: Machine, c: Machine)
    requires Shaped(a, b) && Shaped(b, c)
    ensures Shaped(a, c)
  {
  }

  /* as_prepare_load never reports ENOMEM: it either halts inside getppages
     or returns 0 with three non-zero physical bases, each a frame of the
     table once the table exists. */
  lemma PrepareLoadBases(m: Machine, nv: AsView, cur: ProcId, ioOk: bool, stolen: Stolen)
    requires MachineOk(m) && nv.pbase1 == 0 && nv.pbase2 == 0 && nv.stackpbase == 0
    ensures var r := AsPrepareLoadSpec(m, nv, cur, ioOk, stolen);
      (r.o.Stop? || r.o == Done(Ok)) &&
      (r.o.Done? ==>
        r.space.pbase1 != 0 && r.space.pbase2 != 0 && r.space.stackpbase != 0 &&
        (m.coremapReady ==>
          IsFrameAddr(r.m.frames, r.space.pbase1) && IsFrameAddr(r.m.frames, r.space.pbase2) &&
          IsFrameAddr(r.m.frames, r.space.stackpbase)))
  {
    var r := AsPrepareLoadSpec(m, nv, cur, ioOk, stolen);
    var (o1, m1) := GetPPagesSpec(m, nv.npages1, true, TEXT, cur, ioOk, stolen.text);
    if o1.Stop? {
      assert r.o == Stop(o1.why);
    } else {
      var (o2, m2) := GetPPagesSpec(m1, nv.npages2, true, DATA, cur, ioOk, stolen.data);
      if o2.Stop? {
        assert r.o == Stop(o2.why);
      } else {
        var (o3, m3) := GetPPagesSpec(m2, STACK_PAGES, true, STACK, cur, ioOk, stolen.stack);
        if o3.Stop? {
          assert r.o == Stop(o3.why);
        } else {
          assert r.o == Done(Ok) && r.m == m3;
          assert r.space == nv.(pbase1 := o1.value, pbase2 := o2.value, stackpbase := o3.value);
          if m.coremapReady {
            ShapedTrans(m1, m2, m3);
            ShapedKeepsFrameAddr(m1, m3, o1.value);
            ShapedKeepsFrameAddr(m2, m3, o2.value);
          }
        }
      }
    }
  }

  /* A frame address stays a frame address across allocations. */
  lemma ShapedKeepsFrameAddr(a: Machine, b: Machine, paddr: nat)
    requires Shaped(a, b) && IsFrameAddr(a.frames, paddr)
    ensures IsFrameAddr(b.frames, paddr)
  {
    var k :| 0 <= k < |a.frames| && a.frames[k].paddr == paddr;
    assert b.frames[k].paddr == paddr;
  }

  /* The address space as_copy builds: as_create, then the four base and
     size fields of the text and data regions copied over. */
  function CopiedLayout(ov: AsView): (r: AsView)
    ensures r.vbase1 == ov.vbase1 && r.npages1 == ov.npages1 && r.vbase2 == ov.vbase2 && r.npages2 == ov.npages2
    ensures r.pbase1 == 0 && r.pbase2 == 0 && r.stackpbase == 0
    ensures r.text == [] && r.data == [] && r.stack == []
  {
    EmptyView.(vbase1 := ov.vbase1, npages1 := ov.npages1, vbase2 := ov.vbase2, npages2 := ov.npages2)
  }

  /* as_copy: the copy gets the original's region bases and sizes and its
     physical runs from as_prepare_load. The ENOMEM branch is unreachable for
     the same reason as in as_prepare_load, and the three KASSERTs on the
     bases hold. */
  function AsCopySpec(m: Machine, ov: AsView, cur: ProcId, ioOk: bool, stolen: Stolen): (r: Prepared)
    requires MachineOk(m)
    ensures MachineOk(r.m) && Shaped(m, r.m)
  {
    AsPrepareLoadSpec(m, CopiedLayout(ov), cur, ioOk, stolen)
  }

  /* as_copy either halts in getppages or returns 0 with a copy whose region
     layout matches the original and whose three bases are set. Only the
     bases and sizes are copied, not the PTE arrays: the copy has no PTEs, so
     it is not a well-formed address space even when the original was one. */
  lemma AsCopyKeepsLayoutButNoPtes(m: Machine, ov: AsView, cur: ProcId, ioOk: bool, stolen: Stolen)
    requires MachineOk(m)
    ensures var r := AsCopySpec(m, ov, cur, ioOk, stolen);
      (r.o.Stop? || r.o == Done(Ok)) &&
      (r.o.Done? ==> r.space.pbase1 != 0 && r.space.pbase2 != 0 && r.space.stackpbase != 0) &&
      r.space.vbase1 == ov.vbase1 && r.space.npages1 == ov.npages1 &&
      r.space.vbase2 == ov.vbase2 && r.space.npages2 == ov.npages2 &&
      r.space.text == [] && r.space.data == [] && r.space.stack == [] &&
      (Wf(ov) ==> !Wf(r.space))
  {
    PrepareLoadBases(m, CopiedLayout(ov), cur, ioOk, stolen);
  }

  /* as_prepare_load on the objects: newas is not the current address
     space. */
  method AsPrepareLoad(newas: AddrSpace, cur: ProcId, space: AddrSpace?, ft: FrameTable, swap: SwapStore, tlb: Tlb,
                       ioOk: bool, stolen: Stolen)
    returns (o: Outcome<Status>)
    requires newas != space && Ready(ft, space, swap, tlb)
    requires newas.pbase1 == 0 && newas.pbase2 == 0 && newas.stackpbase == 0
    modifies newas, ft.frames, space, swap, swap.slots, tlb.slots
    ensures Ready(ft, space, swap, tlb) && MachineOk(old(Snapshot(ft, space, swap, tlb)))
    ensures Prepared(o, newas.View(), Snapshot(ft, space, swap, tlb)) ==
      AsPrepareLoadSpec(old(Snapshot(ft, space, swap, tlb)), old(newas.View()), cur, ioOk, stolen)
  {
    ReadyIsOk(ft, space, swap, tlb);
    var a := GetPPages(newas.npages1, true, TEXT, cur, space, ft, swap, tlb, ioOk, stolen.text);
    if a.Stop? {
      return Stop(a.why);
    }
    newas.pbase1 := a.value;
    a := GetPPages(newas.npages2, true, DATA, cur, space, ft, swap, tlb, ioOk, stolen.data);
    if a.Stop? {
      return Stop(a.why);
    }
    newas.pbase2 := a.value;
    a := GetPPages(STACK_PAGES, true, STACK, cur, space, ft, swap, tlb, ioOk, stolen.stack);
    if a.Stop? {
      return Stop(a.why);
    }
    newas.stackpbase := a.value;
    return Done(Ok);
  }

  /* as_copy on the objects; the copy is what the source stores through
     ret. */
  method AsCopy(orig: AddrSpace, cur: ProcId, space: AddrSpace?, ft: FrameTable, swap: SwapStore, tlb: Tlb,
                ioOk: bool, stolen: Stolen)
    returns (o: Outcome<Status>, copy: AddrSpace)
    requires Ready(ft, space, swap, tlb)
    modifies ft.frames, space, swap, swap.slots, tlb.slots
    ensures fresh(copy) && Ready(ft, space, swap, tlb) && MachineOk(old(Snapshot(ft, space, swap, tlb)))
    ensures Prepared(o, copy.View(), Snapshot(ft, space, swap, tlb)) ==
      AsCopySpec(old(Snapshot(ft, space, swap, tlb)), old(orig.View()), cur, ioOk, stolen)
  {
    ghost var ov := orig.View();
    copy := new AddrSpace();
    copy.vbase1, copy.npages1 := orig.vbase1, orig.npages1;
    copy.vbase2, copy.npages2 := orig.vbase2, orig.npages2;
    assert copy.View() == CopiedLayout(ov);
    o := AsPrepareLoad(copy, cur, space, ft, swap, tlb, ioOk, stolen);
  }
}
