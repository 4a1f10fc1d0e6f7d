/*
 * Demand paging from the executable (syscall/loadelf.c:341-531) and of
 * stack pages (loadelf.c:534-564), with load_page (vm/pt.c:122-164) on the
 * whole state. The bytes moved by load_segment and uiomovezeros are not
 * modelled: load_segment is reduced to its status (LoadSegmentSpec), the
 * zero fills to success.
 */
module Demand {
  import opened VmDefs
  import opened Tlb
  import opened Coremap
  import opened PageTable
  import opened AddrSpaces
  import opened SwapFile
  import opened MachineState
  import opened FrameAlloc
  import opened TlbRefill
  import opened AsLoad
  import opened Elf

  /* What load_page and the TLB writes after it need: a frame table, an
     address space set up as segment_type asserts, a page-aligned address
     whose lookup stays inside the PTE arrays, and the start of a frame. */
  ghost predicate Loadable(m: Machine, vaddr: nat, paddr: nat)
  {
    MachineOk(m) && m.coremapReady && m.view.Some? && Defined(m.view.value) &&
    vaddr % PAGE_SIZE == 0 && LookupSafe(m.view, vaddr) && IsFrameAddr(m.frames, paddr)
  }

  /* A state with the same frames and the same layout stays loadable. */
  lemma LayoutKeepsLoadable(m: Machine, m': Machine, vaddr: nat, paddr: nat)
    requires Loadable(m, vaddr, paddr) && MachineOk(m') && m'.coremapReady
    requires m'.view.Some? && SameLayout(m'.view.value, m.view.value) && m'.frames == m.frames
    ensures Loadable(m', vaddr, paddr)
  {
    SameLayoutLookups(m'.view.value, m.view.value, vaddr);
  }

  /* (paddr - coremap[0]->cm_paddr) / PAGE_SIZE: the index of the frame at
     paddr. */
  function FrameIndex(m: Machine, paddr: nat): (k: nat)
    requires MachineOk(m) && IsFrameAddr(m.frames, paddr)
    ensures k < |m.frames| && m.frames[k].paddr == paddr
  {
    FrameAddrAligned(m, paddr);
    (paddr - m.frames[0].paddr) / PAGE_SIZE
  }

  /* load_page on the whole state: the PTE of vaddr takes frame k with
     VALID (and DIRTY outside text) set, and frame k is taken for `cur` with
     the segment's tag. An address outside every segment changes nothing.
     The -1 return for an address that does not start a frame cannot occur
     here, since paddr always comes from getppages. */
  function LoadPageSpec(m: Machine, vaddr: nat, paddr: nat, cur: ProcId): (r: Machine)
    requires Loadable(m, vaddr, paddr)
    ensures Loadable(r, vaddr, paddr) && SameLayout(r.view.value, m.view.value)
    ensures r == m.(frames := r.frames, view := r.view) && |r.frames| == |m.frames|
    ensures Locate(m.view, vaddr).None? ==> r == m
    ensures Locate(m.view, vaddr).Some? ==>
      var l := Locate(m.view, vaddr).value;
      var k := FrameIndex(m, paddr);
      PteAt(r.view.value, l) == LoadedPte(PteAt(m.view.value, l), k, l.seg) &&
      r.frames == m.frames[k := Owned(m.frames[k], cur, Tag(l.seg))] &&
      forall j :: InRange(m.view.value, j) && j != l ==> PteAt(r.view.value, j) == PteAt(m.view.value, j)
  {
    match Locate(m.view, vaddr)
    case None => m
    case Some(l) =>
      var v := m.view.value;
      var k := FrameIndex(m, paddr);
      var q := LoadedPte(PteAt(v, l), k, l.seg);
      var r := m.(view := Some(SetPte(v, l, q)), frames := m.frames[k := Owned(m.frames[k], cur, Tag(l.seg))]);
      assert LaidOut(r.frames) by {
        assert forall j :: 0 <= j < |m.frames| ==> r.frames[j].paddr == m.frames[j].paddr;
      }
      assert IsFrameAddr(r.frames, paddr) by {
        assert r.frames[k].paddr == paddr;
      }
      SetPteKeepsFramesInTableAt(v, l, q, |m.frames|);
      SameLayoutLookups(SetPte(v, l, q), v, vaddr);
      r
  }

  /* After load_page the page is resident, in the frame at paddr, owned by
     the faulting process; get_pt_entry therefore reports 0 for it. */
  lemma LoadPageMakesResident(m: Machine, vaddr: nat, paddr: nat, cur: ProcId)
    requires Loadable(m, vaddr, paddr) && Locate(m.view, vaddr).Some?
    ensures var r := LoadPageSpec(m, vaddr, paddr, cur);
      var p := PteAt(r.view.value, Locate(m.view, vaddr).value);
      Resident(p) && r.frames[p.cmIndex].paddr == paddr && r.frames[p.cmIndex].owner == Some(cur) &&
      r.frames[p.cmIndex].occupied && GetPtEntry(r.view, vaddr) == 0
  {
    var r := LoadPageSpec(m, vaddr, paddr, cur);
    var l := Locate(m.view, vaddr).value;
    LoadedPageIsResident(m.view.value, vaddr, FrameIndex(m, paddr));
    SameLayoutLookups(r.view.value, m.view.value, vaddr);
  }

  /* ---- The TLB writes of On_Demand_Loading ---- */

  /* The slot the k-th call of tlb_get_rr_victim returns, counting from a
     next_victim of nv. */
  function RrSlot(nv: nat, k: nat): (r: nat)
    ensures r < NUM_TLB
  {
    (nv + k) % NUM_TLB
  }

  /* Each call advances the slot by one, wrapping. */
  lemma RrSlotNext(nv: nat, k: nat)
    ensures (RrSlot(nv, k) + 1) % NUM_TLB == RrSlot(nv, k + 1)
  {
    var q := (nv + k) / NUM_TLB;
    assert nv + k == q * NUM_TLB + RrSlot(nv, k);
    if RrSlot(nv, k) + 1 == NUM_TLB {
      assert nv + k + 1 == (q + 1) * NUM_TLB;
    } else {
      assert nv + k + 1 == q * NUM_TLB + (RrSlot(nv, k) + 1);
    }
  }

  /* The round-robin search "do j = tlb_get_rr_victim() while slot j is
     valid", from its k-th call on: the first slot without TLBLO_VALID at or
     after next_victim, cyclically, or -1 when every slot is valid (the
     source then spins forever). */
  function RrFreeFrom(s: seq<TlbEntry>, nv: nat, k: nat): (r: int)
    requires |s| == NUM_TLB && nv < NUM_TLB && k <= NUM_TLB
    ensures -1 <= r < NUM_TLB
    ensures r >= 0 ==> !s[r].valid
    ensures r == -1 <==> forall j :: k <= j < NUM_TLB ==> s[RrSlot(nv, j)].valid
    decreases NUM_TLB - k
  {
    if k == NUM_TLB then -1
    else if !s[RrSlot(nv, k)].valid then RrSlot(nv, k)
    else RrFreeFrom(s, nv, k + 1)
  }

  /* The search fails exactly when every slot is valid: NUM_TLB calls visit
     every slot. */
  lemma RrFreeFailsOnlyWhenFull(s: seq<TlbEntry>, nv: nat)
    requires |s| == NUM_TLB && nv < NUM_TLB
    ensures RrFreeFrom(s, nv, 0) == -1 <==> forall i :: 0 <= i < NUM_TLB ==> s[i].valid
  {
    if RrFreeFrom(s, nv, 0) == -1 {
      forall i | 0 <= i < NUM_TLB
        ensures s[i].valid
      {
        var j: nat := if i >= nv then i - nv else i + NUM_TLB - nv;
        RrSlotReaches(nv, i, j);
        assert s[RrSlot(nv, j)].valid;
      }
    }
  }

  /* Slot i is the (i - nv)-th call's slot, counted cyclically. */
  lemma RrSlotReaches(nv: nat, i: nat, j: nat)
    requires nv < NUM_TLB && i < NUM_TLB
    requires j == if i >= nv then i - nv else i + NUM_TLB - nv
    ensures RrSlot(nv, j) == i
  {
    if i >= nv {
      assert nv + j == i;
    } else {
      assert nv + j == i + NUM_TLB;
    }
  }

  /* Writing an entry for vaddr into a slot below which no slot holds vaddr
     makes that slot the one tlb_probe finds. */
  lemma ProbeFindsWrite(s: seq<TlbEntry>, j: nat, e: TlbEntry)
    requires j < |s| && forall k :: 0 <= k < j ==> s[k].ehi != e.ehi
    ensures Probe(s[j := e], e.ehi) == j
  {
    var s' := s[j := e];
    var r := Probe(s', e.ehi);
    assert s'[j].ehi == e.ehi;
    assert forall k :: 0 <= k < j ==> s'[k].ehi != e.ehi;
  }

  /* The entry On_Demand_Loading writes: the page at paddr, writable and
     valid. */
  function LoadedEntry(vaddr: nat, paddr: nat): TlbEntry
  {
    TlbEntry(vaddr, paddr, true, true)
  }

  /* The TLB write after load_page: over the slot tlb_probe finds for the
     page, or else over the first invalid slot the round-robin search meets,
     next_victim then pointing past it. */
  function InstallSpec(m: Machine, vaddr: nat, paddr: nat): (r: Outcome<Machine>)
    requires MachineOk(m)
    ensures r.Done? ==> MachineOk(r.value) && r.value == m.(tlb := r.value.tlb, nextVictim := r.value.nextVictim)
    ensures r.Done? ==> Probe(r.value.tlb, vaddr) >= 0 && r.value.tlb[Probe(r.value.tlb, vaddr)] == LoadedEntry(vaddr, paddr)
    ensures r.Done? ==> forall i :: 0 <= i < NUM_TLB && i != Probe(r.value.tlb, vaddr) ==> r.value.tlb[i] == m.tlb[i]
    ensures r.Stop? <==> Probe(m.tlb, vaddr) == -1 && forall i :: 0 <= i < NUM_TLB ==> m.tlb[i].valid
    ensures r.Stop? ==> r.why == Spins
  {
    var j := Probe(m.tlb, vaddr);
    RrFreeFailsOnlyWhenFull(m.tlb, m.nextVictim);
    if j >= 0 then
      ProbeFindsWrite(m.tlb, j, LoadedEntry(vaddr, paddr));
      Done(m.(tlb := m.tlb[j := LoadedEntry(vaddr, paddr)]))
    else
      var k := RrFreeFrom(m.tlb, m.nextVictim, 0);
      if k < 0 then Stop(Spins)
      else
        ProbeFindsWrite(m.tlb, k, LoadedEntry(vaddr, paddr));
        Done(m.(tlb := m.tlb[k := LoadedEntry(vaddr, paddr)], nextVictim := (k + 1) % NUM_TLB))
  }

  /* The rewrite for a segment without PF_W: the probed slot gets the same
     frame with TLBLO_DIRTY cleared. */
  function Reprotect(m: Machine, vaddr: nat, paddr: nat): (r: Machine)
    requires MachineOk(m) && Probe(m.tlb, vaddr) >= 0
    ensures MachineOk(r) && r == m.(tlb := r.tlb)
    ensures Probe(r.tlb, vaddr) == Probe(m.tlb, vaddr)
    ensures r.tlb == m.tlb[Probe(m.tlb, vaddr) := TlbEntry(vaddr, paddr, false, true)]
  {
    ProbeFindsWrite(m.tlb, Probe(m.tlb, vaddr), TlbEntry(vaddr, paddr, false, true));
    m.(tlb := m.tlb[Probe(m.tlb, vaddr) := TlbEntry(vaddr, paddr, false, true)])
  }

  /* What follows a successful load: pte->flag |= MODIFIED when
     get_pt_entry reports the page resident, and, for a segment without
     PF_W, the TLB entry made read-only. Only the page's PTE and its TLB
     slot change. */
  function FinishSpec(m2: Machine, vaddr: nat, paddr: nat, writable: bool): (r: Machine)
    requires Loadable(m2, vaddr, paddr) && Probe(m2.tlb, vaddr) >= 0
    ensures Loadable(r, vaddr, paddr) && SameLayout(r.view.value, m2.view.value)
    ensures r.frames == m2.frames && r.swap == m2.swap && r.nextVictim == m2.nextVictim
    ensures writable ==> r.tlb == m2.tlb
  {
    var m3 := if GetPtEntry(m2.view, vaddr) == 0 then MarkModified(m2, Locate(m2.view, vaddr).value) else m2;
    LayoutKeepsLoadable(m2, m3, vaddr, paddr);
    var m4 := if writable then m3 else Reprotect(m3, vaddr, paddr);
    LayoutKeepsLoadable(m3, m4, vaddr, paddr);
    m4
  }

  /* ---- One matching PT_LOAD header (loadelf.c:434-526) ---- */

  /* The outcome of loading from one header, whether the page was a zero
     page (whose fill loop reuses the header index), and the new state. */
  datatype Step = Step(o: Outcome<Status>, zeroPage: bool, m: Machine)

  /* The status of the page's contents: nothing to read for a zero page,
     else load_segment of the part of the file image that falls in the
     page, from newPhoffset = p_offset + (vaddr - vbase). */
  function PageStatus(f: ElfFile, ph: Phdr, off: nat): (r: Status)
    ensures r == Ok || r == Err(ENOEXEC) || r == Err(IoError)
    ensures PlanPage(ph.filesz, off) == ZeroPage ==> r == Ok
  {
    match PlanPage(ph.filesz, off)
    case ZeroPage => Ok
    case ReadBytes(n) => LoadSegmentSpec(f, ph.offset + off, PAGE_SIZE, n).st
  }

  /* load_page into the frame, the TLB write, the page's contents; then,
     once they are in, the PTE marked MODIFIED and, for a segment without
     PF_W, the TLB entry made read-only. */
  function LoadFromHeader(m: Machine, f: ElfFile, ph: Phdr, vbase: nat, vaddr: nat, paddr: nat, cur: ProcId)
    : (r: Step)
    requires Loadable(m, vaddr, paddr) && vbase <= vaddr
    ensures Loadable(r.m, vaddr, paddr) && SameLayout(r.m.view.value, m.view.value)
    ensures r.m.swap == m.swap && r.m.coremapReady == m.coremapReady && |r.m.frames| == |m.frames|
    ensures r.o.Done? ==> r.o.value == Ok || r.o.value == Err(ENOEXEC) || r.o.value == Err(IoError)
  {
    var m1 := LoadPageSpec(m, vaddr, paddr, cur);
    match InstallSpec(m1, vaddr, paddr)
    case Stop(h) => Step(Stop(h), false, m1)
    case Done(m2) =>
      LayoutKeepsLoadable(m1, m2, vaddr, paddr);
      var off := vaddr - vbase;
      var st := PageStatus(f, ph, off);
      if st != Ok then Step(Done(st), false, m2)
      else Step(Done(Ok), PlanPage(ph.filesz, off) == ZeroPage, FinishSpec(m2, vaddr, paddr, ph.flags & PF_W != 0))
  }

  /* A page loaded from its header ends up resident in the frame at paddr,
     owned by the faulting process and marked MODIFIED, and the TLB maps it
     to that frame in one slot, writable exactly when the segment has PF_W. */
  lemma LoadedPageIsMapped(m: Machine, f: ElfFile, ph: Phdr, vbase: nat, vaddr: nat, paddr: nat, cur: ProcId)
    requires Loadable(m, vaddr, paddr) && vbase <= vaddr && Locate(m.view, vaddr).Some?
    requires LoadFromHeader(m, f, ph, vbase, vaddr, paddr, cur).o == Done(Ok)
    ensures var r := LoadFromHeader(m, f, ph, vbase, vaddr, paddr, cur).m;
      var p := PteAt(r.view.value, Locate(m.view, vaddr).value);
      Resident(p) && Has(p.flag, MODIFIED) && r.frames[p.cmIndex].paddr == paddr &&
      r.frames[p.cmIndex].owner == Some(cur) &&
      Probe(r.tlb, vaddr) >= 0 &&
      r.tlb[Probe(r.tlb, vaddr)] == TlbEntry(vaddr, paddr, ph.flags & PF_W != 0, true)
  {
    var l := Locate(m.view, vaddr).value;
    var m1 := LoadPageSpec(m, vaddr, paddr, cur);
    LoadPageMakesResident(m, vaddr, paddr, cur);
    var m2 := InstallSpec(m1, vaddr, paddr).value;
    SameLayoutLookups(m2.view.value, m.view.value, vaddr);
    SameLayoutLookups(m1.view.value, m.view.value, vaddr);
    assert PteAt(m2.view.value, l) == PteAt(m1.view.value, l);
    assert GetPtEntry(m2.view, vaddr) == 0;
    var m3 := MarkModified(m2, l);
    var q := PteAt(m2.view.value, l);
    assert (q.flag | MODIFIED) & VALID == q.flag & VALID;
    assert (q.flag | MODIFIED) & MODIFIED == MODIFIED;
  }

  /* ---- On_Demand_Loading ---- */

  /* Which region a PT_LOAD header stands for: the one whose base is its
     p_vaddr, if the faulting address lies in that region; None otherwise. */
  function MatchBase(v: AsView, seg: int, ph: Phdr): (r: Option<nat>)
    ensures r.Some? ==> (r.value == v.vbase1 && seg == TEXT) || (r.value == v.vbase2 && seg == DATA)
    ensures r.Some? ==> ph.vaddr == r.value
    ensures r.None? <==> !(ph.vaddr == v.vbase1 && seg == TEXT) && !(ph.vaddr == v.vbase2 && seg == DATA)
  {
    if ph.vaddr == v.vbase1 && seg == TEXT then Some(v.vbase1)
    else if ph.vaddr == v.vbase2 && seg == DATA then Some(v.vbase2)
    else None
  }

  /* The header loop of On_Demand_Loading from header i on. A header that
     does not match is passed over, a failing read is the device's error,
     a short read or an unknown type is ENOEXEC, and a failed load ends the
     walk. After a zero page the fill
     loop has left the shared index at PAGE_SIZE, so the walk resumes at
     PAGE_SIZE + 1; when that is not past i it would revisit the same
     headers forever. Reaching the end is 0, matched or not. */
  function OnDemandFrom(f: ElfFile, eh: ElfHeader, i: nat, m: Machine, vaddr: nat, paddr: nat, cur: ProcId)
    : (r: (Outcome<Status>, Machine))
    requires Loadable(m, vaddr, paddr)
    ensures Loadable(r.1, vaddr, paddr) && SameLayout(r.1.view.value, m.view.value)
    ensures r.1.swap == m.swap && r.1.coremapReady == m.coremapReady && |r.1.frames| == |m.frames|
    ensures r.0.Done? ==> r.0.value == Ok || r.0.value == Err(ENOEXEC) || r.0.value == Err(IoError)
    decreases eh.phnum - i
  {
    if i >= eh.phnum then (Done(Ok), m)
    else if PhdrOffset(eh, i) in f.readErrors then (Done(Err(IoError)), m)
    else if PhdrOffset(eh, i) !in f.phdrs then (Done(Err(ENOEXEC)), m)
    else
      var ph := f.phdrs[PhdrOffset(eh, i)];
      match Kind(ph.ptype)
      case SkipHeader => OnDemandFrom(f, eh, i + 1, m, vaddr, paddr, cur)
      case UnknownHeader => (Done(Err(ENOEXEC)), m)
      case LoadHeader =>
        var base := MatchBase(m.view.value, SegmentType(m.view, vaddr), ph);
        if base.None? then OnDemandFrom(f, eh, i + 1, m, vaddr, paddr, cur)
        else
          var s := LoadFromHeader(m, f, ph, base.value, vaddr, paddr, cur);
          if s.o != Done(Ok) then (s.o, s.m)
          else
            var next := if s.zeroPage then PAGE_SIZE + 1 else i + 1;
            if next <= i then (Stop(Spins), s.m)
            else OnDemandFrom(f, eh, next, s.m, vaddr, paddr, cur)
  }

  /* What On_Demand_Loading needs: a frame table, a well-formed current
     address space, and a page-aligned address in its text or data (the
     COPY_FROM_ELF case of page_fault). */
  ghost predicate CanLoadFromElf(m: Machine, vaddr: nat)
  {
    MachineOk(m) && m.coremapReady && m.view.Some? && Wf(m.view.value) && vaddr % PAGE_SIZE == 0
  }

  /* On_Demand_Loading: the header checked, one frame from getppages tagged
     with the page's segment, then the header walk. */
  function OnDemandSpec(m: Machine, f: ElfFile, vaddr: nat, cur: ProcId, ioOk: bool, stolen: nat)
    : (r: (Outcome<Status>, Machine))
    requires CanLoadFromElf(m, vaddr)
    ensures MachineOk(r.1) && r.1.view.Some? && Wf(r.1.view.value) && r.1.coremapReady
    ensures SameLayout(r.1.view.value, m.view.value)
    ensures r.0.Done? ==> r.0.value == Ok || r.0.value == Err(ENOEXEC) || r.0.value == Err(IoError)
  {
    match ReadHeader(f)
    case Refused(e) => (Done(Err(e)), m)
    case Header(eh) =>
      var (o, m1) := GetPPagesSpec(m, 1, true, SegmentType(m.view, vaddr), cur, ioOk, stolen);
      match o
      case Stop(h) => (Stop(h), m1)
      case Done(paddr) =>
        WfLookupSafe(m.view.value, vaddr);
        SameLayoutLookups(m1.view.value, m.view.value, vaddr);
        ShapedKeepsFrameAddr(m, m1, paddr);
        var r := OnDemandFrom(f, eh, 0, m1, vaddr, paddr, cur);
        SameLayoutLookups(r.1.view.value, m1.view.value, vaddr);
        r
  }

  /* A header that is refused costs nothing: no frame is taken. */
  lemma RefusedExecutableChangesNothing(m: Machine, f: ElfFile, vaddr: nat, cur: ProcId, ioOk: bool, stolen: nat)
    requires CanLoadFromElf(m, vaddr) && ReadHeader(f).Refused?
    ensures OnDemandSpec(m, f, vaddr, cur, ioOk, stolen) == (Done(Err(ReadHeader(f).e)), m)
  {
  }

  /* Header k is read whole and is skipped or does not match. */
  predicate PassedOver(f: ElfFile, eh: ElfHeader, k: nat, v: AsView, seg: int)
  {
    PhdrOffset(eh, k) !in f.readErrors && PhdrOffset(eh, k) in f.phdrs &&
    var ph := f.phdrs[PhdrOffset(eh, k)];
    Kind(ph.ptype) != UnknownHeader &&
    (Kind(ph.ptype) == LoadHeader ==> MatchBase(v, seg, ph).None?)
  }

  /* A walk that meets no PT_LOAD header for the page's region succeeds and
     changes nothing: the frame getppages took stays allocated but no PTE
     names it, and the page is still not resident. */
  lemma {:induction false} NoMatchLoadsNothing(f: ElfFile, eh: ElfHeader, i: nat, m: Machine, vaddr: nat,
                                               paddr: nat, cur: ProcId)
    requires Loadable(m, vaddr, paddr)
    requires forall k :: i <= k < eh.phnum ==> PassedOver(f, eh, k, m.view.value, SegmentType(m.view, vaddr))
    ensures OnDemandFrom(f, eh, i, m, vaddr, paddr, cur) == (Done(Ok), m)
    decreases eh.phnum - i
  {
    if i < eh.phnum {
      assert PassedOver(f, eh, i, m.view.value, SegmentType(m.view, vaddr));
      NoMatchLoadsNothing(f, eh, i + 1, m, vaddr, paddr, cur);
    }
  }

  /* In an executable with at most PAGE_SIZE + 1 program headers, a zero
     page ends the walk: the reused index is already past the last header. */
  lemma ZeroPageEndsWalk(f: ElfFile, eh: ElfHeader, i: nat, m: Machine, vaddr: nat, paddr: nat, cur: ProcId)
    requires Loadable(m, vaddr, paddr) && i < eh.phnum <= PAGE_SIZE + 1
    requires PhdrOffset(eh, i) !in f.readErrors
    requires PhdrOffset(eh, i) in f.phdrs && Kind(f.phdrs[PhdrOffset(eh, i)].ptype) == LoadHeader
    requires var ph := f.phdrs[PhdrOffset(eh, i)];
      var base := MatchBase(m.view.value, SegmentType(m.view, vaddr), ph);
      base.Some? && LoadFromHeader(m, f, ph, base.value, vaddr, paddr, cur).o == Done(Ok) &&
      LoadFromHeader(m, f, ph, base.value, vaddr, paddr, cur).zeroPage
    ensures var ph := f.phdrs[PhdrOffset(eh, i)];
      var base := MatchBase(m.view.value, SegmentType(m.view, vaddr), ph);
      OnDemandFrom(f, eh, i, m, vaddr, paddr, cur) == (Done(Ok), LoadFromHeader(m, f, ph, base.value, vaddr, paddr, cur).m)
  {
  }

  /* stack_loading: one frame tagged with the page's segment, load_page, and
     the page zero-filled. */
  function StackLoadingSpec(m: Machine, vaddr: nat, cur: ProcId, ioOk: bool, stolen: nat)
    : (r: (Outcome<Status>, Machine))
    requires CanLoadFromElf(m, vaddr)
    ensures MachineOk(r.1) && r.1.view.Some? && Wf(r.1.view.value) && r.1.coremapReady
    ensures SameLayout(r.1.view.value, m.view.value)
    ensures r.0.Stop? || r.0 == Done(Ok)
  {
    var (o, m1) := GetPPagesSpec(m, 1, true, SegmentType(m.view, vaddr), cur, ioOk, stolen);
    match o
    case Stop(h) => (Stop(h), m1)
    case Done(paddr) =>
      WfLookupSafe(m.view.value, vaddr);
      SameLayoutLookups(m1.view.value, m.view.value, vaddr);
      ShapedKeepsFrameAddr(m, m1, paddr);
      var m2 := LoadPageSpec(m1, vaddr, paddr, cur);
      SameLayoutLookups(m2.view.value, m1.view.value, vaddr);
      (Done(Ok), m2)
  }

  /* A stack page that stack_loading brings in is resident, in a frame
     taken for the faulting process with the stack tag. */
  lemma StackPageIsResident(m: Machine, vaddr: nat, cur: ProcId, ioOk: bool, stolen: nat)
    requires CanLoadFromElf(m, vaddr) && InStack(vaddr) && !InText(m.view.value, vaddr) && !InData(m.view.value, vaddr)
    requires StackLoadingSpec(m, vaddr, cur, ioOk, stolen).0.Done?
    ensures var r := StackLoadingSpec(m, vaddr, cur, ioOk, stolen).1;
      var l := Locate(m.view, vaddr).value;
      l.seg == Stack && Resident(PteAt(r.view.value, l)) &&
      r.frames[PteAt(r.view.value, l).cmIndex].owner == Some(cur) &&
      r.frames[PteAt(r.view.value, l).cmIndex].segType == STACK
  {
    var (o, m1) := GetPPagesSpec(m, 1, true, SegmentType(m.view, vaddr), cur, ioOk, stolen);
    WfLookupSafe(m.view.value, vaddr);
    SameLayoutLookups(m1.view.value, m.view.value, vaddr);
    ShapedKeepsFrameAddr(m, m1, o.value);
    LoadPageMakesResident(m1, vaddr, o.value, cur);
  }

  /* ---- The methods, on the objects ---- */

  /* The objects are Ready once their snapshot is well-shaped. */
  lemma OkIsReady(ft: FrameTable, space: AddrSpace?, swap: SwapStore, tlb: Tlb)
    requires ft.Valid() && swap.Valid() && tlb.Valid() && MachineOk(Snapshot(ft, space, swap, tlb))
    ensures Ready(ft, space, swap, tlb)
  {
  }

  /* load_page on the current address space, with the frame index
     recovered from paddr. */
  method LoadPageInto(vaddr: nat, paddr: nat, cur: ProcId, space: AddrSpace, ft: FrameTable, swap: SwapStore, tlb: Tlb)
    requires Ready(ft, space, swap, tlb) && Loadable(Snapshot(ft, space, swap, tlb), vaddr, paddr)
    modifies space, ft.frames
    ensures Ready(ft, space, swap, tlb)
    ensures Snapshot(ft, space, swap, tlb) == LoadPageSpec(old(Snapshot(ft, space, swap, tlb)), vaddr, paddr, cur)
  {
    ghost var m := Snapshot(ft, space, swap, tlb);
    FrameAddrAligned(m, paddr);
    var r := space.LoadPage(ft, paddr, vaddr, cur);
    assert r == 0;
    OkIsReady(ft, space, swap, tlb);
  }

  /* The round-robin search on the TLB object: at most NUM_TLB calls of
     tlb_get_rr_victim; -1 where the source would go on calling forever,
     after which next_victim has come round to where it was. */
  method RrSearch(tlb: Tlb) returns (j: int)
    requires tlb.Valid()
    modifies tlb
    ensures tlb.Valid() && tlb.slots == old(tlb.slots)
    ensures j == RrFreeFrom(tlb.slots[..], old(tlb.nextVictim), 0)
    ensures tlb.nextVictim == if j >= 0 then (j + 1) % NUM_TLB else old(tlb.nextVictim)
  {
    ghost var nv := tlb.nextVictim;
    var k := 0;
    while k < NUM_TLB
      invariant 0 <= k <= NUM_TLB && tlb.Valid() && tlb.slots == old(tlb.slots)
      invariant tlb.nextVictim == RrSlot(nv, k)
      invariant RrFreeFrom(tlb.slots[..], nv, 0) == RrFreeFrom(tlb.slots[..], nv, k)
    {
      RrSlotNext(nv, k);
      j := tlb.RrVictim();
      if !tlb.slots[j].valid {
        return;
      }
      k := k + 1;
    }
    assert RrSlot(nv, NUM_TLB) == nv by {
      assert nv + NUM_TLB == 1 * NUM_TLB + nv;
    }
    j := -1;
  }

  /* The TLB write after load_page, on the objects. */
  method InstallPage(vaddr: nat, paddr: nat, ft: FrameTable, space: AddrSpace, swap: SwapStore, tlb: Tlb)
    returns (o: Outcome<Machine>)
    requires Ready(ft, space, swap, tlb)
    modifies tlb, tlb.slots
    ensures Ready(ft, space, swap, tlb) && tlb.slots == old(tlb.slots) && MachineOk(old(Snapshot(ft, space, swap, tlb)))
    ensures o == InstallSpec(old(Snapshot(ft, space, swap, tlb)), vaddr, paddr)
    ensures Snapshot(ft, space, swap, tlb) == if o.Done? then o.value else old(Snapshot(ft, space, swap, tlb))
  {
    ReadyIsOk(ft, space, swap, tlb);
    ghost var m := Snapshot(ft, space, swap, tlb);
    var j := Probe(tlb.slots[..], vaddr);
    if j >= 0 {
      tlb.slots[j] := LoadedEntry(vaddr, paddr);
      assert Snapshot(ft, space, swap, tlb) == InstallSpec(m, vaddr, paddr).value;
      return Done(Snapshot(ft, space, swap, tlb));
    }
    j := RrSearch(tlb);
    if j < 0 {
      return Stop(Spins);
    }
    tlb.slots[j] := LoadedEntry(vaddr, paddr);
    assert Snapshot(ft, space, swap, tlb) == InstallSpec(m, vaddr, paddr).value;
    o := Done(Snapshot(ft, space, swap, tlb));
  }

  /* What follows a successful load, on the objects. */
  method FinishPage(vaddr: nat, paddr: nat, writable: bool, ft: FrameTable, space: AddrSpace, swap: SwapStore, tlb: Tlb)
    requires Ready(ft, space, swap, tlb) && Loadable(Snapshot(ft, space, swap, tlb), vaddr, paddr)
    requires Probe(tlb.slots[..], vaddr) >= 0
    modifies space, tlb.slots
    ensures Ready(ft, space, swap, tlb) && tlb.slots == old(tlb.slots)
    ensures Snapshot(ft, space, swap, tlb) == FinishSpec(old(Snapshot(ft, space, swap, tlb)), vaddr, paddr, writable)
  {
    ghost var m2 := Snapshot(ft, space, swap, tlb);
    if GetPtEntry(ViewOf(space), vaddr) == 0 {
      var l := Locate(ViewOf(space), vaddr).value;
      var p := PteAt(space.View(), l);
      space.Store(l, p.(flag := p.flag | MODIFIED));
      assert Snapshot(ft, space, swap, tlb) == MarkModified(m2, l);
    }
    if !writable {
      var j := Probe(tlb.slots[..], vaddr);
      tlb.slots[j] := TlbEntry(vaddr, paddr, false, true);
    }
    ReadyIsOk(ft, space, swap, tlb);
  }

  /* One matching header, on the objects. */
  method LoadHeaderPage(f: ElfFile, ph: Phdr, vbase: nat, vaddr: nat, paddr: nat, cur: ProcId,
                        space: AddrSpace, ft: FrameTable, swap: SwapStore, tlb: Tlb)
    returns (o: Outcome<Status>, zeroPage: bool)
    requires Ready(ft, space, swap, tlb) && Loadable(Snapshot(ft, space, swap, tlb), vaddr, paddr) && vbase <= vaddr
    modifies space, ft.frames, tlb, tlb.slots
    ensures Ready(ft, space, swap, tlb) && tlb.slots == old(tlb.slots)
    ensures Step(o, zeroPage, Snapshot(ft, space, swap, tlb)) ==
      LoadFromHeader(old(Snapshot(ft, space, swap, tlb)), f, ph, vbase, vaddr, paddr, cur)
  {
    ghost var m := Snapshot(ft, space, swap, tlb);
    LoadPageInto(vaddr, paddr, cur, space, ft, swap, tlb);
    ghost var m1 := Snapshot(ft, space, swap, tlb);
    var installed := InstallPage(vaddr, paddr, ft, space, swap, tlb);
    if installed.Stop? {
      return Stop(installed.why), false;
    }
    ghost var m2 := Snapshot(ft, space, swap, tlb);
    LayoutKeepsLoadable(m1, m2, vaddr, paddr);
    var off := vaddr - vbase;
    var st := PageStatus(f, ph, off);
    if st != Ok {
      return Done(st), false;
    }
    FinishPage(vaddr, paddr, ph.flags & PF_W != 0, ft, space, swap, tlb);
    return Done(Ok), PlanPage(ph.filesz, off) == ZeroPage;
  }

  /* One pass of the header loop of On_Demand_Loading, for header i (which
     exists): either the walk ends with st, or it goes on at header next. */
  method WalkHeader(f: ElfFile, eh: ElfHeader, i: nat, vaddr: nat, paddr: nat, cur: ProcId,
                    space: AddrSpace, ft: FrameTable, swap: SwapStore, tlb: Tlb)
    returns (done: bool, st: Outcome<Status>, next: nat)
    requires i < eh.phnum
    requires Ready(ft, space, swap, tlb) && Loadable(Snapshot(ft, space, swap, tlb), vaddr, paddr)
    modifies space, ft.frames, tlb, tlb.slots
    ensures Ready(ft, space, swap, tlb) && Loadable(Snapshot(ft, space, swap, tlb), vaddr, paddr)
    ensures tlb.slots == old(tlb.slots) && (!done ==> next > i)
    ensures OnDemandFrom(f, eh, i, old(Snapshot(ft, space, swap, tlb)), vaddr, paddr, cur) ==
      if done then (st, Snapshot(ft, space, swap, tlb)) else OnDemandFrom(f, eh, next, Snapshot(ft, space, swap, tlb), vaddr, paddr, cur)
  {
    done, st, next := false, Done(Ok), i + 1;
    var offset := PhdrOffset(eh, i);
    if offset in f.readErrors {
      return true, Done(Err(IoError)), i;   // VOP_READ's own error
    }
    if offset !in f.phdrs {
      return true, Done(Err(ENOEXEC)), i;   // short read on a program header
    }
    var ph := f.phdrs[offset];
    var kind := Kind(ph.ptype);
    if kind == UnknownHeader {
      return true, Done(Err(ENOEXEC)), i;
    }
    if kind == SkipHeader {
      return;
    }
    var seg := SegmentType(ViewOf(space), vaddr);   // segment_type(vaddr) once more
    var base := MatchBase(space.View(), seg, ph);
    if base.None? {
      return;
    }
    var zeroPage;
    st, zeroPage := LoadHeaderPage(f, ph, base.value, vaddr, paddr, cur, space, ft, swap, tlb);
    if st != Done(Ok) {
      return true, st, i;
    }
    if zeroPage {
      // The zero-fill loop counts with the header index, leaving it at
      // PAGE_SIZE; the loop's i++ follows.
      if PAGE_SIZE + 1 <= i {
        return true, Stop(Spins), i;
      }
      next := PAGE_SIZE + 1;
    }
  }

  /* On_Demand_Loading on the objects. */
  method OnDemandLoading(f: ElfFile, vaddr: nat, cur: ProcId, space: AddrSpace, ft: FrameTable, swap: SwapStore,
                         tlb: Tlb, ioOk: bool, stolen: nat)
    returns (o: Outcome<Status>)
    requires Ready(ft, space, swap, tlb) && CanLoadFromElf(Snapshot(ft, space, swap, tlb), vaddr)
    modifies ft.frames, space, swap, swap.slots, tlb, tlb.slots
    ensures Ready(ft, space, swap, tlb) && swap.slots == old(swap.slots) && tlb.slots == old(tlb.slots)
    ensures (o, Snapshot(ft, space, swap, tlb)) == OnDemandSpec(old(Snapshot(ft, space, swap, tlb)), f, vaddr, cur, ioOk, stolen)
  {
    ghost var m := Snapshot(ft, space, swap, tlb);
    var hdr := ReadHeader(f);
    if hdr.Refused? {
      return Done(Err(hdr.e));
    }
    var eh := hdr.eh;
    var seg := SegmentType(ViewOf(space), vaddr);
    var a := GetPPages(1, true, seg, cur, space, ft, swap, tlb, ioOk, stolen);
    if a.Stop? {
      return Stop(a.why);
    }
    var paddr := a.value;
    ghost var m1 := Snapshot(ft, space, swap, tlb);
    WfLookupSafe(m.view.value, vaddr);
    SameLayoutLookups(m1.view.value, m.view.value, vaddr);
    ShapedKeepsFrameAddr(m, m1, paddr);
    ghost var goal := OnDemandFrom(f, eh, 0, m1, vaddr, paddr, cur);
    var i := 0;
    while i < eh.phnum
      invariant Ready(ft, space, swap, tlb) && Loadable(Snapshot(ft, space, swap, tlb), vaddr, paddr)
      invariant swap.slots == old(swap.slots) && tlb.slots == old(tlb.slots)
      invariant OnDemandFrom(f, eh, i, Snapshot(ft, space, swap, tlb), vaddr, paddr, cur) == goal
      decreases eh.phnum - i
    {
      var done, st, next := WalkHeader(f, eh, i, vaddr, paddr, cur, space, ft, swap, tlb);
      if done {
        return st;
      }
      i := next;
    }
    return Done(Ok);
  }

  /* stack_loading on the objects. */
  method StackLoading(vaddr: nat, cur: ProcId, space: AddrSpace, ft: FrameTable, swap: SwapStore, tlb: Tlb,
                      ioOk: bool, stolen: nat)
    returns (o: Outcome<Status>)
    requires Ready(ft, space, swap, tlb) && CanLoadFromElf(Snapshot(ft, space, swap, tlb), vaddr)
    modifies ft.frames, space, swap, swap.slots, tlb.slots
    ensures Ready(ft, space, swap, tlb) && swap.slots == old(swap.slots)
    ensures (o, Snapshot(ft, space, swap, tlb)) == StackLoadingSpec(old(Snapshot(ft, space, swap, tlb)), vaddr, cur, ioOk, stolen)
  {
    ghost var m := Snapshot(ft, space, swap, tlb);
    var seg := SegmentType(ViewOf(space), vaddr);
    var a := GetPPages(1, true, seg, cur, space, ft, swap, tlb, ioOk, stolen);
    if a.Stop? {
      return Stop(a.why);
    }
    ghost var m1 := Snapshot(ft, space, swap, tlb);
    WfLookupSafe(m.view.value, vaddr);
    SameLayoutLookups(m1.view.value, m.view.value, vaddr);
    ShapedKeepsFrameAddr(m, m1, a.value);
    LoadPageInto(vaddr, a.value, cur, space, ft, swap, tlb);
    return Done(Ok);
  }
}
