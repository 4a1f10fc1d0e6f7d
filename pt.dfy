/*
 * The page-table side of vm/pt.c that only inspects an address space:
 * PTE construction and update (build_ptentry, change_pte), segment
 * classification (segment_type) and lookup (get_pt_entry). An address space
 * is seen here as an AsView value; the AddrSpace class in addrspace.dfy
 * holds the same fields and exposes them through View().
 */
module PageTable {
  import opened VmDefs

  datatype Seg = Text | Data | Stack

  /* The tag segment_type returns for a segment. */
  function Tag(s: Seg): int
  {
    match s
    case Text => TEXT
    case Data => DATA
    case Stack => STACK
  }

  /* struct addrspace, without the ELF vnode and program name. */
  datatype AsView = AsView(vbase1: nat, pbase1: nat, npages1: nat,
                           vbase2: nat, pbase2: nat, npages2: nat,
                           stackpbase: nat,
                           text: seq<Pte>, data: seq<Pte>, stack: seq<Pte>)

  /* USERSTACK - 12 * PAGE_SIZE: the lowest stack page. */
  const STACK_BASE: nat := USERSTACK - STACK_PAGES * PAGE_SIZE

  /* build_ptentry: a PTE with no swap slot. */
  function BuildPtentry(cmIndex: int, pageNumber: nat, flag: Flag): (r: Pte)
    ensures r.swapIndex == -1 && r.pageNumber == pageNumber
    ensures Resident(r) <==> Has(flag, VALID) && cmIndex >= 0
  {
    Pte(cmIndex, pageNumber, flag, -1)
  }

  /* change_pte: a new frame index, and the given bits ORed into the flag. */
  function ChangePte(p: Pte, cmIndex: int, flag: Flag): (r: Pte)
    ensures r.cmIndex == cmIndex && r.pageNumber == p.pageNumber && r.swapIndex == p.swapIndex
    ensures r.flag & p.flag == p.flag        // no bit is ever cleared
    ensures r.flag & flag == flag            // every requested bit is set
    ensures r.flag & !(p.flag | flag) == 0   // and nothing else is set
  {
    p.(cmIndex := cmIndex, flag := p.flag | flag)
  }

  /* The KASSERTs at the top of segment_type. */
  predicate Defined(v: AsView)
  {
    v.vbase1 != 0 && v.npages1 != 0 && v.vbase2 != 0 && v.npages2 != 0 && v.stackpbase != 0 &&
    v.vbase1 % PAGE_SIZE == 0 && v.pbase1 % PAGE_SIZE == 0 && v.vbase2 % PAGE_SIZE == 0 &&
    v.pbase2 % PAGE_SIZE == 0 && v.stackpbase % PAGE_SIZE == 0
  }

  predicate InText(v: AsView, a: nat) { v.vbase1 <= a < v.vbase1 + v.npages1 * PAGE_SIZE }
  predicate InData(v: AsView, a: nat) { v.vbase2 <= a < v.vbase2 + v.npages2 * PAGE_SIZE }
  predicate InStack(a: nat) { STACK_BASE <= a < USERSTACK }

  /* The range tests of segment_type, in the source's order. */
  function Classify(v: AsView, a: nat): Option<Seg>
  {
    if InText(v, a) then Some(Text)
    else if InData(v, a) then Some(Data)
    else if InStack(a) then Some(Stack)
    else None
  }

  /* segment_type, with the current process's address space (None for NULL). */
  function SegmentType(ov: Option<AsView>, a: nat): (r: int)
    requires ov.Some? ==> Defined(ov.value)
    ensures r == -1 || r == TEXT || r == DATA || r == STACK
    ensures ov.None? ==> r == -1
  {
    if ov.None? then -1
    else match Classify(ov.value, a)
      case None => -1
      case Some(s) => Tag(s)
  }

  /* Text wins over data, data over stack: the classification is the first
     range containing the address, whatever the others contain. */
  lemma ClassifyOrder(v: AsView, a: nat)
    ensures Classify(v, a) == Some(Text) <==> InText(v, a)
    ensures Classify(v, a) == Some(Data) <==> !InText(v, a) && InData(v, a)
    ensures Classify(v, a) == Some(Stack) <==> !InText(v, a) && !InData(v, a) && InStack(a)
    ensures Classify(v, a) == None <==> !InText(v, a) && !InData(v, a) && !InStack(a)
  {
  }

  /* The array index get_pt_entry computes for segment s. For the stack the
     source subtracts unsigned values; when the page lies above as_stackpbase
     that wraps to an index far outside the array, written here as -1. */
  function PtIndex(v: AsView, s: Seg, vaddr: nat): int
  {
    var page := PageAlign(vaddr);
    match s
    case Text => page / PAGE_SIZE - v.vbase1 / PAGE_SIZE
    case Data => page / PAGE_SIZE - v.vbase2 / PAGE_SIZE
    case Stack => if v.stackpbase >= page then STACK_PAGES - (v.stackpbase - page) / PAGE_SIZE else -1
  }

  function SegPtes(v: AsView, s: Seg): seq<Pte>
  {
    match s
    case Text => v.text
    case Data => v.data
    case Stack => v.stack
  }

  /* A PTE pointer, as a segment and an index into its array. */
  datatype PteLoc = PteLoc(seg: Seg, index: int)

  predicate InRange(v: AsView, l: PteLoc)
  {
    0 <= l.index < |SegPtes(v, l.seg)|
  }

  function PteAt(v: AsView, l: PteLoc): Pte
    requires InRange(v, l)
  {
    SegPtes(v, l.seg)[l.index]
  }

  /* The address space with the PTE at l replaced. */
  function SetPte(v: AsView, l: PteLoc, p: Pte): (r: AsView)
    requires InRange(v, l)
    ensures InRange(r, l) && PteAt(r, l) == p
    ensures forall m :: InRange(v, m) <==> InRange(r, m)
    ensures forall m :: InRange(v, m) && m != l ==> PteAt(r, m) == PteAt(v, m)
    ensures r.(text := v.text, data := v.data, stack := v.stack) == v
  {
    match l.seg
    case Text => v.(text := v.text[l.index := p])
    case Data => v.(data := v.data[l.index := p])
    case Stack => v.(stack := v.stack[l.index := p])
  }

  /* Where get_pt_entry looks for vaddr, if anywhere. */
  function Locate(ov: Option<AsView>, vaddr: nat): Option<PteLoc>
    requires ov.Some? ==> Defined(ov.value)
  {
    if ov.None? then None
    else match Classify(ov.value, vaddr)
      case None => None
      case Some(s) => Some(PteLoc(s, PtIndex(ov.value, s, vaddr)))
  }

  /* The lookup stays within the PTE arrays (array_get's assertion). */
  predicate LookupSafe(ov: Option<AsView>, vaddr: nat)
    requires ov.Some? ==> Defined(ov.value)
  {
    Locate(ov, vaddr).Some? ==> InRange(ov.value, Locate(ov, vaddr).value)
  }

  /* get_pt_entry: -1 outside every segment, 0 for a resident page, else 1
     for text/data and 2 for the stack. */
  function GetPtEntry(ov: Option<AsView>, vaddr: nat): (r: int)
    requires ov.Some? ==> Defined(ov.value)
    requires LookupSafe(ov, vaddr)
    ensures r == -1 <==> SegmentType(ov, vaddr) == -1
    ensures r == 0 <==> Locate(ov, vaddr).Some? && Resident(PteAt(ov.value, Locate(ov, vaddr).value))
    ensures r == 1 <==> (SegmentType(ov, vaddr) == TEXT || SegmentType(ov, vaddr) == DATA) &&
                        !Resident(PteAt(ov.value, Locate(ov, vaddr).value))
    ensures r == 2 <==> SegmentType(ov, vaddr) == STACK && !Resident(PteAt(ov.value, Locate(ov, vaddr).value))
  {
    match Locate(ov, vaddr)
    case None => -1
    case Some(l) =>
      if Resident(PteAt(ov.value, l)) then 0
      else if l.seg == Stack then 2
      else 1
  }

  /* An address space as as_define_region and as_define_stack leave it: one
     PTE per page of each segment and the stack base at USERSTACK. */
  predicate Wf(v: AsView)
  {
    Defined(v) && |v.text| == v.npages1 && |v.data| == v.npages2 &&
    |v.stack| == STACK_PAGES && v.stackpbase == USERSTACK
  }

  /* The index of an address within an aligned range of n pages. */
  lemma PageOffsetInRange(base: nat, n: nat, a: nat)
    requires base % PAGE_SIZE == 0 && base <= a < base + n * PAGE_SIZE
    ensures 0 <= PageAlign(a) / PAGE_SIZE - base / PAGE_SIZE < n
  {
    var k := a / PAGE_SIZE;
    assert PageAlign(a) == k * PAGE_SIZE;
    assert base == (base / PAGE_SIZE) * PAGE_SIZE;
  }

  /* In a well-formed address space every lookup index is in range: the page
     offset from the base for text and data, and 12 - (USERSTACK - page) /
     PAGE_SIZE, which lies in [0, 12), for the stack. */
  lemma WfLookupSafe(v: AsView, vaddr: nat)
    requires Wf(v)
    ensures LookupSafe(Some(v), vaddr)
  {
    match Classify(v, vaddr)
    case None =>
    case Some(Text) => PageOffsetInRange(v.vbase1, v.npages1, vaddr);
    case Some(Data) => PageOffsetInRange(v.vbase2, v.npages2, vaddr);
    case Some(Stack) =>
      var page := PageAlign(vaddr);
      assert STACK_BASE <= page;
      assert (USERSTACK - page) / PAGE_SIZE <= STACK_PAGES;
      assert (USERSTACK - page) / PAGE_SIZE >= 1;
  }

  /* Each PTE of a freshly defined region at `base`: no frame, no flags. */
  function FreshPtes(base: nat, n: nat): (r: seq<Pte>)
    ensures |r| == n
  {
    seq(n, i requires 0 <= i < n => BuildPtentry(-1, base + i * PAGE_SIZE, 0))
  }

  /* A fresh PTE describes its own page and is neither resident nor in swap,
     so the first touch of any page of a fresh region is a page fault. */
  lemma FreshPtesFault(base: nat, n: nat, i: nat)
    requires i < n
    ensures FreshPtes(base, n)[i].pageNumber == base + i * PAGE_SIZE
    ensures !Resident(FreshPtes(base, n)[i]) && !Has(FreshPtes(base, n)[i].flag, IN_SWAP)
    ensures FreshPtes(base, n)[i].swapIndex == -1
  {
  }
}
