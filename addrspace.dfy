/*
 * The address space object (vm/addrspace.c) and the PTE updates of
 * load_page (vm/pt.c:122-164). The PTE arrays as_textSeg, as_dataSeg and
 * as_stackSeg are sequence fields that the methods reassign.
 */
module AddrSpaces {
  import opened VmDefs
  import opened Tlb
  import opened Coremap
  import opened PageTable

  /* The alignment of as_define_region: the base moves down to its page
     boundary, the size grows by the in-page offset and is rounded up to
     whole pages. The result is the smallest run of whole pages that covers
     [vaddr, vaddr + sz). */
  function AlignRegion(vaddr: nat, sz: nat): (r: (nat, nat))
    ensures r.0 % PAGE_SIZE == 0 && r.0 <= vaddr && vaddr - r.0 < PAGE_SIZE
    ensures vaddr + sz <= r.0 + r.1 * PAGE_SIZE
    ensures r.1 > 0 ==> r.0 + (r.1 - 1) * PAGE_SIZE < vaddr + sz
  {
    var base := PageAlign(vaddr);
    var size := sz + (vaddr - base);
    (base, PageAlign(size + PAGE_SIZE - 1) / PAGE_SIZE)
  }

  /* as_define_region on an address space value: text first, then data,
     then EUNIMP with nothing changed. */
  function DefineRegionView(v: AsView, vaddr: nat, sz: nat): (Status, AsView)
  {
    var r := AlignRegion(vaddr, sz);
    if v.vbase1 == 0 then (Ok, v.(vbase1 := r.0, npages1 := r.1, text := FreshPtes(r.0, r.1)))
    else if v.vbase2 == 0 then (Ok, v.(vbase2 := r.0, npages2 := r.1, data := FreshPtes(r.0, r.1)))
    else (Err(EUNIMP), v)
  }

  /* as_define_stack on an address space value. */
  function DefineStackView(v: AsView): AsView
  {
    v.(stackpbase := if v.stackpbase == 0 then USERSTACK else v.stackpbase,
       stack := FreshPtes(STACK_BASE, STACK_PAGES))
  }

  /* The address space as_create returns. */
  const EmptyView: AsView := AsView(0, 0, 0, 0, 0, 0, 0, [], [], [])

  /* A region defined first becomes the text segment: every address of
     [vaddr, vaddr + sz) classifies as text, and its lookup finds the fresh
     PTE describing its own page. */
  lemma DefinedRegionMapsItsPages(v: AsView, vaddr: nat, sz: nat, a: nat)
    requires v.vbase1 == 0 && vaddr <= a < vaddr + sz
    ensures var w := DefineRegionView(v, vaddr, sz).1;
      InText(w, a) &&
      0 <= PtIndex(w, Text, a) < |w.text| &&
      w.text[PtIndex(w, Text, a)].pageNumber == PageAlign(a) &&
      !Resident(w.text[PtIndex(w, Text, a)])
  {
    var r := AlignRegion(vaddr, sz);
    var w := DefineRegionView(v, vaddr, sz).1;
    PageOffsetInRange(r.0, r.1, a);
    var i := PtIndex(w, Text, a);
    FreshPtesFault(r.0, r.1, i);
    assert r.0 == (r.0 / PAGE_SIZE) * PAGE_SIZE;
    assert PageAlign(a) == (PageAlign(a) / PAGE_SIZE) * PAGE_SIZE;
  }

  /* Defining text, then data, then the stack on a fresh address space, with
     page-aligned non-zero region bases and non-empty sizes, yields an address
     space on which every lookup stays in its array. */
  lemma SetupIsWellFormed(t: nat, ts: nat, d: nat, ds: nat)
    requires t % PAGE_SIZE == 0 && t != 0 && ts > 0
    requires d % PAGE_SIZE == 0 && d != 0 && ds > 0
    ensures var v1 := DefineRegionView(EmptyView, t, ts);
      var v2 := DefineRegionView(v1.1, d, ds);
      v1.0 == Ok && v2.0 == Ok && Wf(DefineStackView(v2.1)) &&
      DefineRegionView(v2.1, d, ds) == (Err(EUNIMP), v2.1)
  {
  }

  class AddrSpace {
    var vbase1: nat
    var pbase1: nat
    var npages1: nat
    var vbase2: nat
    var pbase2: nat
    var npages2: nat
    var stackpbase: nat
    var textSeg: seq<Pte>
    var dataSeg: seq<Pte>
    var stackSeg: seq<Pte>

    function View(): AsView
      reads this
    {
      AsView(vbase1, pbase1, npages1, vbase2, pbase2, npages2, stackpbase, textSeg, dataSeg, stackSeg)
    }

    /* as_create: every base, size and physical base 0, no PTEs. */
    constructor ()
      ensures View() == EmptyView
    {
      vbase1, pbase1, npages1 := 0, 0, 0;
      vbase2, pbase2, npages2 := 0, 0, 0;
      stackpbase := 0;
      textSeg, dataSeg, stackSeg := [], [], [];
    }

    /* as_define_region. The permission arguments are ignored, as in the
       source. */
    method DefineRegion(vaddr: nat, sz: nat, readable: bool, writeable: bool, executable: bool)
      returns (st: Status)
      modifies this
      ensures (st, View()) == DefineRegionView(old(View()), vaddr, sz)
    {
      var r := AlignRegion(vaddr, sz);
      var base, npages := r.0, r.1;
      if vbase1 == 0 {
        vbase1, npages1 := base, npages;
        textSeg := NewRegionPtes(base, npages);
        return Ok;
      }
      if vbase2 == 0 {
        vbase2, npages2 := base, npages;
        dataSeg := NewRegionPtes(base, npages);
        return Ok;
      }
      return Err(EUNIMP);   // more than two regions are not supported
    }

    /* as_define_stack: returns the initial stack pointer USERSTACK. */
    method DefineStack() returns (stackptr: nat)
      modifies this
      ensures stackptr == USERSTACK && stackpbase != 0
      ensures View() == DefineStackView(old(View()))
    {
      if stackpbase == 0 {
        stackpbase := USERSTACK;
      }
      stackSeg := NewRegionPtes(STACK_BASE, STACK_PAGES);
      stackptr := USERSTACK;
    }

    /* Store p through the PTE pointer l. */
    method Store(l: PteLoc, p: Pte)
      requires InRange(View(), l)
      modifies this
      ensures View() == SetPte(old(View()), l, p)
    {
      match l.seg
      case Text => textSeg := textSeg[l.index := p];
      case Data => dataSeg := dataSeg[l.index := p];
      case Stack => stackSeg := stackSeg[l.index := p];
    }

    /* load_page (vm/pt.c:122-164) for this, the current address space: bind
       the page at the aligned address vaddr to the frame at paddr. */
    method LoadPage(ft: FrameTable, paddr: nat, vaddr: nat, cur: ProcId) returns (r: int)
      requires ft.Valid() && ft.ready && ft.maxPages > 0
      requires Defined(View()) && vaddr % PAGE_SIZE == 0 && LookupSafe(Some(View()), vaddr)
      requires paddr >= ft.frames[0].paddr && (paddr - ft.frames[0].paddr) / PAGE_SIZE < ft.maxPages
      modifies this, ft.frames
      ensures ft.Valid()
      ensures var cm := (paddr - old(ft.frames[0].paddr)) / PAGE_SIZE;
        var loc := Locate(Some(old(View())), vaddr);
        if old(ft.frames[cm].paddr) != paddr || loc.None? then
          r == (if old(ft.frames[cm].paddr) != paddr then -1 else 0) &&
          View() == old(View()) && ft.frames[..] == old(ft.frames[..])
        else
          r == 0 &&
          View() == SetPte(old(View()), loc.value, LoadedPte(PteAt(old(View()), loc.value), cm, loc.value.seg)) &&
          ft.frames[..] == old(ft.frames[..])[cm := Owned(old(ft.frames[cm]), cur, Tag(loc.value.seg))]
    {
      var cm := (paddr - ft.frames[0].paddr) / PAGE_SIZE;
      var page := PageAlign(vaddr);
      var segType := SegmentType(Some(View()), page);
      if ft.frames[cm].paddr != paddr {
        return -1;   // paddr is not the start of a frame
      }
      assert page == vaddr;
      if segType == TEXT {
        var i := (page - vbase1) / PAGE_SIZE;
        assert i == PtIndex(View(), Text, vaddr) by {
          assert vbase1 == (vbase1 / PAGE_SIZE) * PAGE_SIZE;
          assert page == (page / PAGE_SIZE) * PAGE_SIZE;
        }
        Store(PteLoc(Text, i), LoadedPte(textSeg[i], cm, Text));
        ft.SetCoremapProc(cm, TEXT, cur);
      } else if segType == DATA {
        var i := (page - vbase2) / PAGE_SIZE;
        assert i == PtIndex(View(), Data, vaddr) by {
          assert vbase2 == (vbase2 / PAGE_SIZE) * PAGE_SIZE;
          assert page == (page / PAGE_SIZE) * PAGE_SIZE;
        }
        Store(PteLoc(Data, i), LoadedPte(dataSeg[i], cm, Data));
        ft.SetCoremapProc(cm, DATA, cur);
      } else if segType == STACK {
        var i := STACK_PAGES - (stackpbase - vaddr) / PAGE_SIZE;
        Store(PteLoc(Stack, i), LoadedPte(stackSeg[i], cm, Stack));
        ft.SetCoremapProc(cm, STACK, cur);
      }
      return 0;
    }
  }

  /* A helper for as_define_region and as_define_stack: array_setsize
     followed by array_set of build_ptentry(-1, base + i * PAGE_SIZE, 0). */
  method NewRegionPtes(base: nat, n: nat) returns (ptes: seq<Pte>)
    ensures ptes == FreshPtes(base, n)
  {
    ptes := [];
    var i := 0;
    while i < n
      invariant 0 <= i <= n && |ptes| == i
      invariant forall k :: 0 <= k < i ==> ptes[k] == BuildPtentry(-1, base + k * PAGE_SIZE, 0)
    {
      ptes := ptes + [BuildPtentry(-1, base + i * PAGE_SIZE, 0)];
      i := i + 1;
    }
  }

  /* The PTE after load_page: text pages gain VALID and lose DIRTY (they are
     read-only), data and stack pages gain DIRTY|VALID. */
  function LoadedPte(p: Pte, cm: int, s: Seg): (r: Pte)
    ensures r.cmIndex == cm && r.pageNumber == p.pageNumber && r.swapIndex == p.swapIndex
    ensures Has(r.flag, VALID)
    ensures Has(r.flag, DIRTY) <==> s != Text
    ensures Has(r.flag, MODIFIED) == Has(p.flag, MODIFIED) && Has(r.flag, IN_SWAP) == Has(p.flag, IN_SWAP)
  {
    if s == Text then
      var q := ChangePte(p, cm, VALID);
      q.(flag := q.flag & !DIRTY)
    else ChangePte(p, cm, DIRTY | VALID)
  }

  /* After load_page the page's lookup reports it resident (code 0). */
  lemma LoadedPageIsResident(v: AsView, vaddr: nat, cm: nat)
    requires Defined(v) && LookupSafe(Some(v), vaddr) && Locate(Some(v), vaddr).Some?
    ensures var l := Locate(Some(v), vaddr).value;
      var w := SetPte(v, l, LoadedPte(PteAt(v, l), cm, l.seg));
      Defined(w) && LookupSafe(Some(w), vaddr) && GetPtEntry(Some(w), vaddr) == 0
  {
    var l := Locate(Some(v), vaddr).value;
    var w := SetPte(v, l, LoadedPte(PteAt(v, l), cm, l.seg));
    assert Classify(w, vaddr) == Classify(v, vaddr);
    assert Locate(Some(w), vaddr) == Some(l);
  }

  /* as_activate: a NULL address space leaves the TLB alone, otherwise every
     slot is invalidated. */
  method AsActivate(space: AddrSpace?, tlb: Tlb)
    requires tlb.Valid()
    modifies tlb.slots
    ensures space == null ==> tlb.slots[..] == old(tlb.slots[..])
    ensures space != null ==> AllInvalid(tlb.slots[..])
  {
    if space == null {
      return;
    }
    tlb.InvalidateAll();
  }

  /* One step of as_destroy's release loops: the frame of a resident PTE
     becomes free, unowned, of length 0 and tag 0. */
  function ReleaseOne(fs: seq<Frame>, p: Pte): (r: seq<Frame>)
    requires Resident(p) ==> p.cmIndex < |fs|
    ensures |r| == |fs|
  {
    if Resident(p) then fs[p.cmIndex := Released(fs[p.cmIndex])] else fs
  }

  /* Every resident PTE of ptes names a frame of the table. */
  predicate FramesInTable(ptes: seq<Pte>, n: nat)
  {
    forall i :: 0 <= i < |ptes| && Resident(ptes[i]) ==> ptes[i].cmIndex < n
  }

  /* The effect of an as_destroy release loop over ptes, in index order. */
  function ReleaseFrames(fs: seq<Frame>, ptes: seq<Pte>): (r: seq<Frame>)
    requires FramesInTable(ptes, |fs|)
    ensures |r| == |fs|
  {
    if |ptes| == 0 then fs
    else ReleaseOne(ReleaseFrames(fs, ptes[..|ptes| - 1]), ptes[|ptes| - 1])
  }

  /* Does some resident PTE of ptes name frame k? */
  predicate Names(ptes: seq<Pte>, k: int)
  {
    exists i :: 0 <= i < |ptes| && Resident(ptes[i]) && ptes[i].cmIndex == k
  }

  /* The release loop frees exactly the frames its resident PTEs name and
     leaves every other frame as it was. */
  lemma {:induction false} ReleaseFramesExactly(fs: seq<Frame>, ptes: seq<Pte>, k: nat)
    requires FramesInTable(ptes, |fs|) && k < |fs|
    ensures ReleaseFrames(fs, ptes)[k] == if Names(ptes, k) then Released(fs[k]) else fs[k]
  {
    if |ptes| > 0 {
      var init := ptes[..|ptes| - 1];
      var last := ptes[|ptes| - 1];
      assert forall i :: 0 <= i < |init| ==> init[i] == ptes[i];
      assert FramesInTable(init, |fs|);
      ReleaseFramesExactly(fs, init, k);
      assert Names(ptes, k) <==> Names(init, k) || (Resident(last) && last.cmIndex == k);
    }
  }

  /* The frames as_destroy leaves: the text, data and stack loops in turn. */
  function TeardownFrames(fs: seq<Frame>, v: AsView): seq<Frame>
    requires FramesInTable(v.text, |fs|) && FramesInTable(v.data, |fs|) && FramesInTable(v.stack, |fs|)
  {
    ReleaseFrames(ReleaseFrames(ReleaseFrames(fs, v.text), v.data), v.stack)
  }

  /* After as_destroy no frame mapped by the address space is occupied, and
     frames it does not map are untouched. */
  lemma TeardownFreesMappedFrames(fs: seq<Frame>, v: AsView, k: nat)
    requires FramesInTable(v.text, |fs|) && FramesInTable(v.data, |fs|) && FramesInTable(v.stack, |fs|)
    requires k < |fs|
    ensures var r := TeardownFrames(fs, v);
      (Names(v.text, k) || Names(v.data, k) || Names(v.stack, k) ==> !r[k].occupied && r[k].owner == None) &&
      (!Names(v.text, k) && !Names(v.data, k) && !Names(v.stack, k) ==> r[k] == fs[k])
  {
    var f1 := ReleaseFrames(fs, v.text);
    var f2 := ReleaseFrames(f1, v.data);
    ReleaseFramesExactly(fs, v.text, k);
    ReleaseFramesExactly(f1, v.data, k);
    ReleaseFramesExactly(f2, v.stack, k);
  }

  /* One release loop of as_destroy over the PTEs of a segment. */
  method ReleaseSegment(ft: FrameTable, ptes: seq<Pte>)
    requires ft.Valid() && FramesInTable(ptes, ft.maxPages)
    modifies ft.frames
    ensures ft.Valid()
    ensures ft.frames[..] == ReleaseFrames(old(ft.frames[..]), ptes)
  {
    ghost var fs := ft.frames[..];
    var index := 0;
    while index < |ptes|
      invariant 0 <= index <= |ptes| && ft.Valid()
      invariant ft.frames[..] == ReleaseFrames(fs, ptes[..index])
    {
      var pte := ptes[index];
      assert ptes[..index + 1][..index] == ptes[..index];
      if Has(pte.flag, VALID) && pte.cmIndex >= 0 {
        ft.frames[pte.cmIndex] := Released(ft.frames[pte.cmIndex]);
      }
      index := index + 1;
    }
    assert ptes[..|ptes|] == ptes;
  }

  /* The PTE arrays as as_destroy walks them: one PTE per page of text and
     data, and 12 for the stack. */
  predicate Complete(v: AsView)
  {
    |v.text| == v.npages1 && |v.data| == v.npages2 && |v.stack| == STACK_PAGES
  }

  /* as_destroy: release the frame of every resident PTE of the three
     segments, drop the PTEs, and invalidate the whole TLB. Swap slots held by
     the address space are not released. A PTE array shorter than its loop
     bound makes array_get's bounds assertion fail, and a longer one leaves
     entries that array_destroy's emptiness assertion rejects: the kernel
     panics, and what it had released before that is not described. */
  method AsDestroy(space: AddrSpace?, ft: FrameTable, tlb: Tlb) returns (o: Outcome<()>)
    requires ft.Valid() && ft.ready && tlb.Valid()
    requires space != null ==> (FramesInTable(space.textSeg, ft.maxPages) &&
      FramesInTable(space.dataSeg, ft.maxPages) && FramesInTable(space.stackSeg, ft.maxPages))
    modifies space, ft.frames, tlb.slots
    ensures ft.Valid()
    ensures o == Stop(KernelPanic) <==> space != null && !Complete(old(space.View()))
    ensures o.Done? ==> o == Done(())
    ensures space == null ==> ft.frames[..] == old(ft.frames[..]) && tlb.slots[..] == old(tlb.slots[..])
    ensures space != null && o.Done? ==>
      ft.frames[..] == TeardownFrames(old(ft.frames[..]), old(space.View())) &&
      space.View() == old(space.View()).(text := [], data := [], stack := []) &&
      AllInvalid(tlb.slots[..])
  {
    if space == null {
      return Done(());
    }
    if |space.textSeg| != space.npages1 {
      return Stop(KernelPanic);
    }
    ReleaseSegment(ft, space.textSeg);
    space.textSeg := [];
    if |space.dataSeg| != space.npages2 {
      return Stop(KernelPanic);
    }
    ReleaseSegment(ft, space.dataSeg);
    space.dataSeg := [];
    if |space.stackSeg| != STACK_PAGES {
      return Stop(KernelPanic);
    }
    ReleaseSegment(ft, space.stackSeg);
    space.stackSeg := [];
    tlb.InvalidateAll();
    return Done(());
  }
}
