/*
 * The fault path: vm_fault (vm/vm.c:140-289), page_fault (vm/pt.c:167-204)
 * and vm_invalidaddress (vm/vm.c:370-417). The statistics counters and the
 * debug output are left out; curproc == NULL is the flag hasProc being
 * false, curproc_getas() == NULL the state's view being None, and the
 * executable is the ELF file of the current address space.
 */
module VmFault {
  import opened VmDefs
  import opened Tlb
  import opened Coremap
  import opened PageTable
  import opened AddrSpaces
  import opened SwapFile
  import opened MachineState
  import opened FrameAlloc
  import opened TlbRefill
  import opened SwapIn
  import opened Elf
  import opened Demand
  import opened AsLoad

  /* Fault types, as the trap handler passes them. */
  const VM_FAULT_READ: int := 0
  const VM_FAULT_WRITE: int := 1
  const VM_FAULT_READONLY: int := 2

  /* page_fault's cases. */
  const COPY_FROM_SWAP: int := 1
  const COPY_FROM_ELF: int := 2
  const COPY_TO_STACK: int := 3

  /* Every PTE describes its own page: entry i of a segment holds the page
     at the segment's base plus i pages. as_define_region and
     as_define_stack build them so, and nothing rewrites a page number. */
  ghost predicate Numbered(v: AsView)
  {
    (forall i :: 0 <= i < |v.text| ==> v.text[i].pageNumber == v.vbase1 + i * PAGE_SIZE) &&
    (forall i :: 0 <= i < |v.data| ==> v.data[i].pageNumber == v.vbase2 + i * PAGE_SIZE) &&
    (forall i :: 0 <= i < |v.stack| ==> v.stack[i].pageNumber == STACK_BASE + i * PAGE_SIZE)
  }

  /* An address space set up by load_elf's as_define_region calls and
     as_define_stack is numbered. */
  lemma SetupIsNumbered(t: nat, ts: nat, d: nat, ds: nat)
    ensures var v1 := DefineRegionView(EmptyView, t, ts).1;
      var v2 := DefineRegionView(v1, d, ds).1;
      t >= PAGE_SIZE ==> Numbered(DefineStackView(v2))
  {
    var v1 := DefineRegionView(EmptyView, t, ts).1;
    var v2 := DefineRegionView(v1, d, ds).1;
    var v3 := DefineStackView(v2);
    if t >= PAGE_SIZE {
      assert v1.vbase1 != 0;
      forall i | 0 <= i < |v3.text|
        ensures v3.text[i].pageNumber == v3.vbase1 + i * PAGE_SIZE
      {
        FreshPtesFault(v1.vbase1, v1.npages1, i);
      }
      forall i | 0 <= i < |v3.data|
        ensures v3.data[i].pageNumber == v3.vbase2 + i * PAGE_SIZE
      {
        FreshPtesFault(v2.vbase2, v2.npages2, i);
      }
      forall i | 0 <= i < |v3.stack|
        ensures v3.stack[i].pageNumber == STACK_BASE + i * PAGE_SIZE
      {
        FreshPtesFault(STACK_BASE, STACK_PAGES, i);
      }
    }
  }

  /* In a numbered, well-formed address space the PTE that get_pt_entry
     finds for a page-aligned address is the PTE of that very page, so
     read_from_swap may be called on it. */
  lemma NumberedLocate(v: AsView, a: nat)
    requires Wf(v) && Numbered(v) && a % PAGE_SIZE == 0 && Locate(Some(v), a).Some?
    ensures LookupSafe(Some(v), a)
    ensures PteAt(v, Locate(Some(v), a).value).pageNumber == a
  {
    WfLookupSafe(v, a);
    var l := Locate(Some(v), a).value;
    assert PageAlign(a) == a;
    var q := a / PAGE_SIZE;
    assert a == q * PAGE_SIZE;
    match l.seg
    case Text =>
      var q1 := v.vbase1 / PAGE_SIZE;
      assert v.vbase1 == q1 * PAGE_SIZE;
      assert l.index == q - q1;
      assert v.vbase1 + (q - q1) * PAGE_SIZE == a;
    case Data =>
      var q2 := v.vbase2 / PAGE_SIZE;
      assert v.vbase2 == q2 * PAGE_SIZE;
      assert l.index == q - q2;
      assert v.vbase2 + (q - q2) * PAGE_SIZE == a;
    case Stack =>
      assert USERSTACK - a == (0x80000 - q) * PAGE_SIZE;
      assert (USERSTACK - a) / PAGE_SIZE == 0x80000 - q;
      assert l.index == STACK_PAGES - (0x80000 - q);
      assert STACK_BASE + (STACK_PAGES - (0x80000 - q)) * PAGE_SIZE == a;
  }

  /* An address space whose PTE arrays are empty: as_create's, and the copy
     as_copy returns. */
  predicate NoPtes(v: AsView)
  {
    v.text == [] && v.data == [] && v.stack == []
  }

  /* The state of a fault in a set-up address space: the frame table exists
     (faults come from user processes, after vm_bootstrap), and the address
     space, if any, is well-formed and numbered. */
  ghost predicate SetUp(m: Machine)
  {
    MachineOk(m) && m.coremapReady && (m.view.Some? ==> Wf(m.view.value) && Numbered(m.view.value))
  }

  /* An address space vm_fault can meet that is not set up: one without
     PTEs (as_create's, or the copy as_copy returns), or one whose regions
     are not all defined (an executable with a single PT_LOAD header leaves
     the data region at 0). */
  predicate NotSetUp(v: AsView)
  {
    NoPtes(v) || !Defined(v)
  }

  /* What vm_fault may meet: a set-up address space, or one that is not. */
  ghost predicate FaultReady(m: Machine)
  {
    SetUp(m) || (MachineOk(m) && m.coremapReady && m.view.Some? && NotSetUp(m.view.value))
  }

  /* get_pt_entry in an address space that is not set up: segment_type's
     KASSERTs panic unless the bases and sizes are all set; in a space
     without PTEs an address outside every segment is then EFAULT, and an
     address inside one reaches array_get on an empty PTE array, whose
     bounds assertion panics. */
  function FaultNotSetUp(v: AsView, a: nat): (r: Outcome<Status>)
    requires NotSetUp(v)
    ensures r == Done(Err(EFAULT)) <==> Defined(v) && SegmentType(Some(v), a) == -1
    ensures r != Done(Err(EFAULT)) ==> r == Stop(KernelPanic)
  {
    if !Defined(v) then Stop(KernelPanic)
    else if Classify(v, a).None? then Done(Err(EFAULT))
    else Stop(KernelPanic)
  }

  /* The page at a, found at l, is resident. */
  ghost predicate ResidentAt(m: Machine, a: nat, l: PteLoc)
  {
    MachineOk(m) && m.view.Some? && Defined(m.view.value) && a % PAGE_SIZE == 0 &&
    LookupSafe(m.view, a) && Locate(m.view, a) == Some(l) && Resident(PteAt(m.view.value, l))
  }

  /* coremap[pte->cm_index]->cm_paddr for a resident PTE: a page-aligned
     frame address. */
  function ResidentPaddr(m: Machine, l: PteLoc): (paddr: nat)
    requires MachineOk(m) && m.view.Some? && InRange(m.view.value, l) && Resident(PteAt(m.view.value, l))
    ensures paddr % PAGE_SIZE == 0 && IsFrameAddr(m.frames, paddr)
  {
    PteInTable(m.view.value, |m.frames|, l);
    var k := PteAt(m.view.value, l).cmIndex;
    assert m.frames[k].paddr == m.frames[0].paddr + k * PAGE_SIZE;
    m.frames[k].paddr
  }

  /* The tail of vm_fault for a resident page: TLB_updating with its
     frame, -1 (Fail) if that reports a fault. */
  function RefillSpec(m: Machine, a: nat, l: PteLoc): (r: (Outcome<Status>, Machine))
    requires ResidentAt(m, a, l)
    ensures r.0 == Done(Ok) && MachineOk(r.1) && r.1.view.Some? && SameLayout(r.1.view.value, m.view.value)
  {
    var paddr := ResidentPaddr(m, l);
    assert PageAlign(a) == a;
    var (code, m') := TlbUpdateSpec(m, a, paddr);
    assert code == 0 by {
      assert GetPtEntry(m.view, a) == 0;
    }
    (Done(if code != 0 then Fail else Ok), m')
  }

  /* read_from_swap keeps the layout of the address space. */
  lemma SwapInKeepsLayout(m: Machine, l: PteLoc, cur: ProcId, ioOk: bool, readOk: bool, stolen: nat)
    requires CanSwapIn(m, l)
    ensures var r := ReadFromSwapSpec(m, l, cur, ioOk, readOk, stolen).1;
      r.view.Some? && SameLayout(r.view.value, m.view.value) && r.coremapReady
  {
    var v := m.view.value;
    var p := PteAt(v, l);
    var m0 := m.(swap := SwapOpened(m.swap));
    var tag := SegmentType(m.view, p.pageNumber);
    var res := GetPPagesSpec(m0, 1, true, tag, cur, ioOk, stolen);
    if res.0.Done? {
      AllocKeepsSwapInTarget(m0, l, tag, cur, ioOk, stolen);
      SameLayoutLookups(res.1.view.value, v, p.pageNumber);
      BoundPageCanRefill(res.1, l, res.0.value, cur, tag);
    }
  }

  /* read_from_swap may be called for a swapped-out page of a numbered
     address space, and once it returns 0 the page is resident at the same
     place, ready for the refill. */
  lemma SwapInThenResident(m: Machine, a: nat, l: PteLoc, cur: ProcId, ioOk: bool, readOk: bool, stolen: nat)
    requires SetUp(m) && m.view.Some? && a % PAGE_SIZE == 0 && Locate(m.view, a) == Some(l) &&
      InRange(m.view.value, l)
    requires !Resident(PteAt(m.view.value, l)) && Has(PteAt(m.view.value, l).flag, IN_SWAP)
    ensures CanSwapIn(m, l)
    ensures var r := ReadFromSwapSpec(m, l, cur, ioOk, readOk, stolen);
      r.0 == Done(0) ==> ResidentAt(r.1, a, l)
  {
    NumberedLocate(m.view.value, a);
    var r := ReadFromSwapSpec(m, l, cur, ioOk, readOk, stolen);
    SwapInMakesResident(m, l, cur, ioOk, readOk, stolen);
    SwapInKeepsLayout(m, l, cur, ioOk, readOk, stolen);
    if r.0 == Done(0) {
      SameLayoutLookups(r.1.view.value, m.view.value, a);
    }
  }

  /* page_fault(COPY_FROM_SWAP) and, once the read succeeded, the refill of
     vm_fault with the frame the PTE now names. */
  function SwapInThenRefill(m: Machine, a: nat, l: PteLoc, cur: ProcId, ioOk: bool, readOk: bool, stolen: nat)
    : (r: (Outcome<Status>, Machine))
    requires SetUp(m) && m.view.Some? && a % PAGE_SIZE == 0 && Locate(m.view, a) == Some(l) &&
      InRange(m.view.value, l)
    requires !Resident(PteAt(m.view.value, l)) && Has(PteAt(m.view.value, l).flag, IN_SWAP)
    ensures MachineOk(r.1)
  {
    SwapInThenResident(m, a, l, cur, ioOk, readOk, stolen);
    var (o, m1) := ReadFromSwapSpec(m, l, cur, ioOk, readOk, stolen);
    match o
    case Stop(h) => (Stop(h), m1)
    case Done(code) =>
      if code != 0 then (Done(Fail), m1)
      else RefillSpec(m1, a, l)
  }

  /* page_fault(COPY_TO_STACK) and then the refill. */
  function StackThenRefill(m: Machine, a: nat, l: PteLoc, cur: ProcId, ioOk: bool, stolen: nat)
    : (r: (Outcome<Status>, Machine))
    requires SetUp(m) && m.view.Some? && a % PAGE_SIZE == 0 && Locate(m.view, a) == Some(l)
    requires SegmentType(m.view, a) == STACK
    ensures MachineOk(r.1)
  {
    ClassifyOrder(m.view.value, a);
    var (o, m1) := StackLoadingSpec(m, a, cur, ioOk, stolen);
    match o
    case Stop(h) => (Stop(h), m1)
    case Done(_) =>
      StackPageIsResident(m, a, cur, ioOk, stolen);
      WfLookupSafe(m.view.value, a);
      SameLayoutLookups(m1.view.value, m.view.value, a);
      RefillSpec(m1, a, l)
  }

  /* The VM_FAULT_READ / VM_FAULT_WRITE path of vm_fault: EFAULT without a
     process or an address space or outside every segment; a non-resident
     text or data page is swapped in, or else loaded from the executable
     (whose result is returned at once, with no refill); a non-resident
     stack page is swapped in or zero-filled; then the page goes into the
     TLB. */
  function ReadWriteFault(m: Machine, a: nat, hasProc: bool, cur: ProcId, file: ElfFile,
                          ioOk: bool, readOk: bool, stolen: nat)
    : (r: (Outcome<Status>, Machine))
    requires FaultReady(m) && a % PAGE_SIZE == 0
    ensures MachineOk(r.1)
  {
    if !hasProc || m.view.None? then (Done(Err(EFAULT)), m)
    else if NotSetUp(m.view.value) then (FaultNotSetUp(m.view.value, a), m)
    else
      WfLookupSafe(m.view.value, a);
      var code := GetPtEntry(m.view, a);
      if code == -1 then (Done(Err(EFAULT)), m)
      else
        var l := Locate(m.view, a).value;
        var p := PteAt(m.view.value, l);
        if code == 0 then RefillSpec(m, a, l)
        else if Has(p.flag, IN_SWAP) then SwapInThenRefill(m, a, l, cur, ioOk, readOk, stolen)
        else if code == 1 then OnDemandSpec(m, file, a, cur, ioOk, stolen)
        else StackThenRefill(m, a, l, cur, ioOk, stolen)
  }

  /* The VM_FAULT_READONLY path: a write to a page the TLB holds read-only.
     get_pt_entry runs before any check for a process. A text or data page
     that is not resident is loaded from the executable and that result
     returned; a stack page is loaded; then, the page being resident
     (VALID), it is refilled when its PTE is DIRTY or not MODIFIED, and
     otherwise the process exits. The source falls through to the
     VM_FAULT_READ case only for a PTE without VALID, which cannot reach
     that point. */
  function ReadOnlyFault(m: Machine, a: nat, hasProc: bool, cur: ProcId, file: ElfFile,
                         ioOk: bool, stolen: nat)
    : (r: (Outcome<Status>, Machine))
    requires FaultReady(m) && a % PAGE_SIZE == 0
    ensures MachineOk(r.1)
  {
    if !hasProc then (Stop(NullDeref), m)
    else if m.view.None? then (Done(Err(EFAULT)), m)
    else if NotSetUp(m.view.value) then (FaultNotSetUp(m.view.value, a), m)
    else
      WfLookupSafe(m.view.value, a);
      var code := GetPtEntry(m.view, a);
      if code == -1 then (Done(Err(EFAULT)), m)
      else if code == 1 then OnDemandSpec(m, file, a, cur, ioOk, stolen)
      else
        var l := Locate(m.view, a).value;
        var (o, m1) := if code == 2 then StackLoadingSpec(m, a, cur, ioOk, stolen) else (Done(Ok), m);
        match o
        case Stop(h) => (Stop(h), m1)
        case Done(_) =>
          assert ResidentAt(m1, a, l) by {
            if code == 2 {
              ClassifyOrder(m.view.value, a);
              StackPageIsResident(m, a, cur, ioOk, stolen);
              SameLayoutLookups(m1.view.value, m.view.value, a);
            }
          }
          var q := PteAt(m1.view.value, l);
          if Has(q.flag, DIRTY) || !Has(q.flag, MODIFIED) then RefillSpec(m1, a, l)
          else (Stop(ProcExit), m1)
  }

  /* vm_fault: the fault address is aligned to its page, then dispatched on
     the fault type; any other type is EINVAL. */
  function VmFaultSpec(m: Machine, faultType: int, faultAddress: nat, hasProc: bool, cur: ProcId, file: ElfFile,
                       ioOk: bool, readOk: bool, stolen: nat)
    : (r: (Outcome<Status>, Machine))
    requires FaultReady(m)
    ensures MachineOk(r.1)
  {
    var a := PageAlign(faultAddress);
    if faultType == VM_FAULT_READONLY then ReadOnlyFault(m, a, hasProc, cur, file, ioOk, stolen)
    else if faultType == VM_FAULT_READ || faultType == VM_FAULT_WRITE then
      ReadWriteFault(m, a, hasProc, cur, file, ioOk, readOk, stolen)
    else (Done(Err(EINVAL)), m)
  }

  /* ---- Properties of vm_fault ---- */

  /* A fault outside every segment, or with no address space, is EFAULT and
     changes nothing; so is a read or write fault with no process. */
  lemma FaultOutsideSegmentsIsEfault(m: Machine, faultType: int, fa: nat, hasProc: bool, cur: ProcId, file: ElfFile,
                                     ioOk: bool, readOk: bool, stolen: nat)
    requires FaultReady(m) && (faultType == VM_FAULT_READ || faultType == VM_FAULT_WRITE || hasProc)
    requires m.view.Some? ==> Defined(m.view.value) && SegmentType(m.view, PageAlign(fa)) == -1
    requires faultType == VM_FAULT_READ || faultType == VM_FAULT_WRITE || faultType == VM_FAULT_READONLY
    ensures VmFaultSpec(m, faultType, fa, hasProc, cur, file, ioOk, readOk, stolen) == (Done(Err(EFAULT)), m)
  {
    if m.view.Some? && !NotSetUp(m.view.value) {
      WfLookupSafe(m.view.value, PageAlign(fa));
    }
  }

  /* A fault on a resident page only refills the TLB: it succeeds, and
     afterwards the TLB maps the page; the frames, the swap store and every
     PTE other than the page's own are unchanged. For a READONLY fault this
     holds when the PTE is DIRTY or not MODIFIED (otherwise the process
     exits). */
  lemma ResidentFaultRefills(m: Machine, faultType: int, fa: nat, cur: ProcId, file: ElfFile,
                             ioOk: bool, readOk: bool, stolen: nat)
    requires SetUp(m) && m.view.Some?
    requires faultType == VM_FAULT_READ || faultType == VM_FAULT_WRITE
    requires GetPtEntry(m.view, PageAlign(fa)) == 0
    ensures var r := VmFaultSpec(m, faultType, fa, true, cur, file, ioOk, readOk, stolen);
      r.0 == Done(Ok) && Probe(r.1.tlb, PageAlign(fa)) >= 0 &&
      r.1.frames == m.frames && r.1.swap == m.swap &&
      forall k :: InRange(m.view.value, k) && k != Locate(m.view, PageAlign(fa)).value ==>
        PteAt(r.1.view.value, k) == PteAt(m.view.value, k)
  {
    var a := PageAlign(fa);
    assert a % PAGE_SIZE == 0 by { assert a == (fa / PAGE_SIZE) * PAGE_SIZE; }
    WfLookupSafe(m.view.value, a);
    var l := Locate(m.view, a).value;
    var paddr := ResidentPaddr(m, l);
    assert PageAlign(a) == a;
    RefillMapsPage(m, a, paddr);
    var m' := TlbUpdateSpec(m, a, paddr).1;
    assert forall k :: InRange(m.view.value, k) && k != l ==> PteAt(m'.view.value, k) == PteAt(m.view.value, k) by {
      var p := PteAt(m.view.value, l);
      assert m' == m || m'.view == Some(SetPte(m.view.value, l, p.(flag := p.flag | MODIFIED))) ||
             m'.view == m.view;
    }
  }

  /* A write to a read-only page whose PTE is MODIFIED and not DIRTY (a
     text page after its first load) makes the process exit. */
  lemma WriteToLoadedTextExits(m: Machine, fa: nat, cur: ProcId, file: ElfFile, ioOk: bool, readOk: bool, stolen: nat)
    requires SetUp(m) && m.view.Some? && GetPtEntry(m.view, PageAlign(fa)) == 0
    requires var q := PteAt(m.view.value, Locate(m.view, PageAlign(fa)).value);
      Has(q.flag, MODIFIED) && !Has(q.flag, DIRTY)
    ensures VmFaultSpec(m, VM_FAULT_READONLY, fa, true, cur, file, ioOk, readOk, stolen) == (Stop(ProcExit), m)
  {
    WfLookupSafe(m.view.value, PageAlign(fa));
  }

  /* A fault in the address space as_copy returns: it has the original's
     segments but no PTEs, so a read, write or read-only fault on a page of
     any of the original's segments panics in get_pt_entry, and a fault
     anywhere else is EFAULT, whatever state the machine has reached. */
  lemma CopyFaultPanics(m0: Machine, ov: AsView, cur: ProcId, ioOk: bool, st: Stolen,
                        m: Machine, faultType: int, fa: nat, file: ElfFile, readOk: bool, stolen: nat)
    requires MachineOk(m0) && m0.coremapReady && Defined(ov)
    requires MachineOk(m) && m.coremapReady
    requires faultType == VM_FAULT_READ || faultType == VM_FAULT_WRITE || faultType == VM_FAULT_READONLY
    ensures var r := AsCopySpec(m0, ov, cur, ioOk, st);
      r.o.Done? && m.view == Some(r.space) ==>
        FaultReady(m) &&
        VmFaultSpec(m, faultType, fa, true, cur, file, ioOk, readOk, stolen) ==
          (if SegmentType(Some(ov), PageAlign(fa)) == -1 then Done(Err(EFAULT)) else Stop(KernelPanic), m)
  {
    var r := AsCopySpec(m0, ov, cur, ioOk, st);
    if r.o.Done? && m.view == Some(r.space) {
      var v := m.view.value;
      CopyIsDefined(m0, ov, cur, ioOk, st);
      assert FaultNotSetUp(v, PageAlign(fa)) ==
        (if SegmentType(Some(ov), PageAlign(fa)) == -1 then Done(Err(EFAULT)) else Stop(KernelPanic));
    }
  }

  /* A fault in the address space of an executable with a single PT_LOAD
     header: load_elf defines only the text region and as_define_stack the
     stack, so as_vbase2 stays 0 and segment_type's KASSERT panics on the
     process's first read, write or read-only fault, wherever it is. */
  lemma OneRegionFaultPanics(m: Machine, t: nat, ts: nat, faultType: int, fa: nat, cur: ProcId, file: ElfFile,
                             ioOk: bool, readOk: bool, stolen: nat)
    requires MachineOk(m) && m.coremapReady
    requires m.view == Some(DefineStackView(DefineRegionView(EmptyView, t, ts).1))
    requires faultType == VM_FAULT_READ || faultType == VM_FAULT_WRITE || faultType == VM_FAULT_READONLY
    ensures FaultReady(m)
    ensures VmFaultSpec(m, faultType, fa, true, cur, file, ioOk, readOk, stolen) == (Stop(KernelPanic), m)
  {
    assert m.view.value.vbase2 == 0;
  }

  /* The copy has the original's segments, its three bases set to frame
     addresses, and no PTEs. */
  lemma CopyIsDefined(m0: Machine, ov: AsView, cur: ProcId, ioOk: bool, st: Stolen)
    requires MachineOk(m0) && m0.coremapReady && Defined(ov)
    ensures var r := AsCopySpec(m0, ov, cur, ioOk, st);
      r.o.Done? ==> Defined(r.space) && NoPtes(r.space) && forall a :: Classify(r.space, a) == Classify(ov, a)
  {
    var r := AsCopySpec(m0, ov, cur, ioOk, st);
    if !r.o.Done? {
      return;
    }
    AsCopyKeepsLayoutButNoPtes(m0, ov, cur, ioOk, st);
    PrepareLoadBases(m0, CopiedLayout(ov), cur, ioOk, st);
    FrameAddrAligned(r.m, r.space.pbase1);
    FrameAddrAligned(r.m, r.space.pbase2);
    FrameAddrAligned(r.m, r.space.stackpbase);
    SameRegionsClassifyAlike(r.space, ov);
  }

  /* Classification looks only at the region bases and sizes. */
  lemma SameRegionsClassifyAlike(v: AsView, ov: AsView)
    requires v.vbase1 == ov.vbase1 && v.npages1 == ov.npages1
    requires v.vbase2 == ov.vbase2 && v.npages2 == ov.npages2
    ensures forall a :: Classify(v, a) == Classify(ov, a)
  {
  }

  /* ---- vm_invalidaddress ---- */

  /* vm_invalidaddress: true (EFAULT) without a process or an address
     space, or when the page of addr lies in no segment. */
  function InvalidAddress(hasProc: bool, ov: Option<AsView>, addr: nat): (r: bool)
    ensures !hasProc || ov.None? ==> r
    ensures hasProc && ov.Some? ==>
      (r <==> !InText(ov.value, PageAlign(addr)) && !InData(ov.value, PageAlign(addr)) && !InStack(PageAlign(addr)))
  {
    var a := PageAlign(addr);
    if !hasProc || ov.None? then true
    else
      var v := ov.value;
      !(v.vbase1 <= a < v.vbase1 + v.npages1 * PAGE_SIZE) &&
      !(v.vbase2 <= a < v.vbase2 + v.npages2 * PAGE_SIZE) &&
      !(USERSTACK - STACK_PAGES * PAGE_SIZE <= a < USERSTACK)
  }

  /* vm_invalidaddress and vm_fault agree on an address space that is set
     up: an address is invalid exactly when segment_type rejects its page,
     which is when a fault on it is EFAULT. */
  lemma InvalidAddressMatchesFault(v: AsView, addr: nat)
    requires Defined(v)
    ensures InvalidAddress(true, Some(v), addr) <==> SegmentType(Some(v), PageAlign(addr)) == -1
  {
    ClassifyOrder(v, PageAlign(addr));
  }

  /* ---- The methods, on the objects ---- */

  /* The refill for a resident page. */
  method Refill(a: nat, l: PteLoc, ft: FrameTable, space: AddrSpace, swap: SwapStore, tlb: Tlb)
    returns (o: Outcome<Status>)
    requires Ready(ft, space, swap, tlb) && ResidentAt(Snapshot(ft, space, swap, tlb), a, l)
    modifies space, tlb, tlb.slots
    ensures Ready(ft, space, swap, tlb) && tlb.slots == old(tlb.slots)
    ensures (o, Snapshot(ft, space, swap, tlb)) == RefillSpec(old(Snapshot(ft, space, swap, tlb)), a, l)
  {
    ghost var m := Snapshot(ft, space, swap, tlb);
    PteInTable(space.View(), ft.maxPages, l);
    var paddr := ft.frames[PteAt(space.View(), l).cmIndex].paddr;
    assert paddr == ResidentPaddr(m, l);
    assert PageAlign(a) == a;
    var code := TlbUpdating(a, paddr, ft, space, swap, tlb);
    if code != 0 {
      return Done(Fail);
    }
    return Done(Ok);
  }

  /* page_fault(COPY_FROM_SWAP), then the refill. */
  method SwapInFault(a: nat, l: PteLoc, cur: ProcId, space: AddrSpace, ft: FrameTable, swap: SwapStore, tlb: Tlb,
                     ioOk: bool, readOk: bool, stolen: nat)
    returns (o: Outcome<Status>)
    requires Ready(ft, space, swap, tlb)
    requires var m := Snapshot(ft, space, swap, tlb);
      SetUp(m) && m.view.Some? && a % PAGE_SIZE == 0 && Locate(m.view, a) == Some(l) &&
      InRange(m.view.value, l) && !Resident(PteAt(m.view.value, l)) && Has(PteAt(m.view.value, l).flag, IN_SWAP)
    modifies ft.frames, space, swap, swap.slots, tlb, tlb.slots
    ensures Ready(ft, space, swap, tlb) && swap.slots == old(swap.slots) && tlb.slots == old(tlb.slots)
    ensures (o, Snapshot(ft, space, swap, tlb)) ==
      SwapInThenRefill(old(Snapshot(ft, space, swap, tlb)), a, l, cur, ioOk, readOk, stolen)
  {
    ghost var m := Snapshot(ft, space, swap, tlb);
    SwapInThenResident(m, a, l, cur, ioOk, readOk, stolen);
    ghost var res := ReadFromSwapSpec(m, l, cur, ioOk, readOk, stolen);
    var r := ReadFromSwap(l, cur, space, ft, swap, tlb, ioOk, readOk, stolen);
    assert r == res.0 && Snapshot(ft, space, swap, tlb) == res.1;
    if r.Stop? {
      assert SwapInThenRefill(m, a, l, cur, ioOk, readOk, stolen) == (Stop(r.why), res.1);
      return Stop(r.why);
    }
    if r.value != 0 {
      assert SwapInThenRefill(m, a, l, cur, ioOk, readOk, stolen) == (Done(Fail), res.1);
      return Done(Fail);
    }
    assert SwapInThenRefill(m, a, l, cur, ioOk, readOk, stolen) == RefillSpec(res.1, a, l);
    o := Refill(a, l, ft, space, swap, tlb);
  }

  /* page_fault(COPY_TO_STACK), then the refill. */
  method StackFault(a: nat, l: PteLoc, cur: ProcId, space: AddrSpace, ft: FrameTable, swap: SwapStore, tlb: Tlb,
                    ioOk: bool, stolen: nat)
    returns (o: Outcome<Status>)
    requires Ready(ft, space, swap, tlb)
    requires var m := Snapshot(ft, space, swap, tlb);
      SetUp(m) && m.view.Some? && a % PAGE_SIZE == 0 && Locate(m.view, a) == Some(l) &&
      SegmentType(m.view, a) == STACK
    modifies ft.frames, space, swap, swap.slots, tlb, tlb.slots
    ensures Ready(ft, space, swap, tlb) && swap.slots == old(swap.slots) && tlb.slots == old(tlb.slots)
    ensures (o, Snapshot(ft, space, swap, tlb)) ==
      StackThenRefill(old(Snapshot(ft, space, swap, tlb)), a, l, cur, ioOk, stolen)
  {
    ghost var m := Snapshot(ft, space, swap, tlb);
    ClassifyOrder(m.view.value, a);
    var r := StackLoading(a, cur, space, ft, swap, tlb, ioOk, stolen);
    if r.Stop? {
      return Stop(r.why);
    }
    ghost var m1 := Snapshot(ft, space, swap, tlb);
    StackPageIsResident(m, a, cur, ioOk, stolen);
    WfLookupSafe(m.view.value, a);
    SameLayoutLookups(m1.view.value, m.view.value, a);
    o := Refill(a, l, ft, space, swap, tlb);
  }

  /* The VM_FAULT_READ / VM_FAULT_WRITE path on the objects. */
  method ReadWriteFaultOn(a: nat, hasProc: bool, cur: ProcId, file: ElfFile, space: AddrSpace?, ft: FrameTable,
                          swap: SwapStore, tlb: Tlb, ioOk: bool, readOk: bool, stolen: nat)
    returns (o: Outcome<Status>)
    requires Ready(ft, space, swap, tlb) && FaultReady(Snapshot(ft, space, swap, tlb)) && a % PAGE_SIZE == 0
    modifies ft.frames, space, swap, swap.slots, tlb, tlb.slots
    ensures Ready(ft, space, swap, tlb) && swap.slots == old(swap.slots) && tlb.slots == old(tlb.slots)
    ensures (o, Snapshot(ft, space, swap, tlb)) ==
      ReadWriteFault(old(Snapshot(ft, space, swap, tlb)), a, hasProc, cur, file, ioOk, readOk, stolen)
  {
    if !hasProc || space == null {
      return Done(Err(EFAULT));
    }
    if NotSetUp(space.View()) {
      return FaultNotSetUp(space.View(), a);
    }
    WfLookupSafe(space.View(), a);
    var code := GetPtEntry(ViewOf(space), a);
    if code == -1 {
      return Done(Err(EFAULT));
    }
    var l := Locate(ViewOf(space), a).value;
    var p := PteAt(space.View(), l);
    if code == 0 {
      o := Refill(a, l, ft, space, swap, tlb);
    } else if Has(p.flag, IN_SWAP) {
      o := SwapInFault(a, l, cur, space, ft, swap, tlb, ioOk, readOk, stolen);
    } else if code == 1 {
      o := OnDemandLoading(file, a, cur, space, ft, swap, tlb, ioOk, stolen);
    } else {
      o := StackFault(a, l, cur, space, ft, swap, tlb, ioOk, stolen);
    }
  }

  /* The VM_FAULT_READONLY path on the objects. */
  method ReadOnlyFaultOn(a: nat, hasProc: bool, cur: ProcId, file: ElfFile, space: AddrSpace?, ft: FrameTable,
                         swap: SwapStore, tlb: Tlb, ioOk: bool, stolen: nat)
    returns (o: Outcome<Status>)
    requires Ready(ft, space, swap, tlb) && FaultReady(Snapshot(ft, space, swap, tlb)) && a % PAGE_SIZE == 0
    modifies ft.frames, space, swap, swap.slots, tlb, tlb.slots
    ensures Ready(ft, space, swap, tlb) && swap.slots == old(swap.slots) && tlb.slots == old(tlb.slots)
    ensures (o, Snapshot(ft, space, swap, tlb)) ==
      ReadOnlyFault(old(Snapshot(ft, space, swap, tlb)), a, hasProc, cur, file, ioOk, stolen)
  {
    ghost var m := Snapshot(ft, space, swap, tlb);
    if !hasProc {
      return Stop(NullDeref);   // get_pt_entry reads curproc->p_addrspace
    }
    if space == null {
      return Done(Err(EFAULT));   // segment_type reports no segment
    }
    if NotSetUp(space.View()) {
      return FaultNotSetUp(space.View(), a);
    }
    WfLookupSafe(space.View(), a);
    var code := GetPtEntry(ViewOf(space), a);
    if code == -1 {
      return Done(Err(EFAULT));
    }
    if code == 1 {
      o := OnDemandLoading(file, a, cur, space, ft, swap, tlb, ioOk, stolen);
      return;
    }
    var l := Locate(ViewOf(space), a).value;
    if code == 2 {
      var r := StackLoading(a, cur, space, ft, swap, tlb, ioOk, stolen);
      if r.Stop? {
        return Stop(r.why);
      }
      ClassifyOrder(m.view.value, a);
      StackPageIsResident(m, a, cur, ioOk, stolen);
      ghost var m1 := Snapshot(ft, space, swap, tlb);
      SameLayoutLookups(m1.view.value, m.view.value, a);
    }
    var q := PteAt(space.View(), l);
    if Has(q.flag, DIRTY) || !Has(q.flag, MODIFIED) {
      o := Refill(a, l, ft, space, swap, tlb);
    } else {
      o := Stop(ProcExit);   // _exit(0)
    }
  }

  /* vm_fault on the objects. */
  method VmFaultOn(faultType: int, faultAddress: nat, hasProc: bool, cur: ProcId, file: ElfFile, space: AddrSpace?,
                   ft: FrameTable, swap: SwapStore, tlb: Tlb, ioOk: bool, readOk: bool, stolen: nat)
    returns (o: Outcome<Status>)
    requires Ready(ft, space, swap, tlb) && FaultReady(Snapshot(ft, space, swap, tlb))
    modifies ft.frames, space, swap, swap.slots, tlb, tlb.slots
    ensures Ready(ft, space, swap, tlb) && swap.slots == old(swap.slots) && tlb.slots == old(tlb.slots)
    ensures (o, Snapshot(ft, space, swap, tlb)) ==
      VmFaultSpec(old(Snapshot(ft, space, swap, tlb)), faultType, faultAddress, hasProc, cur, file, ioOk, readOk, stolen)
  {
    var a := PageAlign(faultAddress);
    assert a % PAGE_SIZE == 0 by { assert a == (faultAddress / PAGE_SIZE) * PAGE_SIZE; }
    if faultType == VM_FAULT_READONLY {
      o := ReadOnlyFaultOn(a, hasProc, cur, file, space, ft, swap, tlb, ioOk, stolen);
    } else if faultType == VM_FAULT_READ || faultType == VM_FAULT_WRITE {
      o := ReadWriteFaultOn(a, hasProc, cur, file, space, ft, swap, tlb, ioOk, readOk, stolen);
    } else {
      o := Done(Err(EINVAL));
    }
  }
}
