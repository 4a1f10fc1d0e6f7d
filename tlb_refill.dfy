/*
 * TLB_updating (vm/vm.c:291-365): install the mapping of a faulting page in
 * the TLB, in the lowest invalid slot or, with none left, in the round-robin
 * victim slot.
 */
module TlbRefill {
  import opened VmDefs
  import opened Tlb
  import opened Coremap
  import opened PageTable
  import opened AddrSpaces
  import opened SwapFile
  import opened MachineState

  /* The lowest invalid slot at or after i, or -1. */
  function FirstInvalidFrom(s: seq<TlbEntry>, i: nat): (r: int)
    requires i <= |s|
    decreases |s| - i
    ensures r == -1 || i <= r < |s|
    ensures r >= 0 ==> !s[r].valid && forall k :: i <= k < r ==> s[k].valid
    ensures r == -1 <==> forall k :: i <= k < |s| ==> s[k].valid
  {
    if i == |s| then -1
    else if !s[i].valid then i
    else FirstInvalidFrom(s, i + 1)
  }

  function FirstInvalid(s: seq<TlbEntry>): (r: int)
    ensures -1 <= r < |s|
    ensures r >= 0 ==> !s[r].valid && forall k :: 0 <= k < r ==> s[k].valid
    ensures r == -1 <==> forall k :: 0 <= k < |s| ==> s[k].valid
  {
    FirstInvalidFrom(s, 0)
  }

  /* The TLBLO_DIRTY (write-enable) bit of an installed entry: set for a
     DIRTY page, and for any page not yet MODIFIED (so the ELF loader can
     fill a text page once); clear for a clean page already installed. */
  predicate Writable(p: Pte)
  {
    Has(p.flag, DIRTY) || !Has(p.flag, MODIFIED)
  }

  /* A text page, which load_page leaves without DIRTY, is writable through
     the TLB until its first installation marks it MODIFIED, and read-only
     from then on; data and stack pages, loaded DIRTY, stay writable. */
  lemma WritableOnlyUntilInstalled(p: Pte, cm: nat)
    requires !Has(p.flag, MODIFIED)
    ensures Writable(LoadedPte(p, cm, Text))
    ensures !Writable(LoadedPte(p, cm, Text).(flag := LoadedPte(p, cm, Text).flag | MODIFIED))
    ensures Writable(LoadedPte(p, cm, Data)) && Writable(LoadedPte(p, cm, Stack))
    ensures Writable(LoadedPte(p, cm, Data).(flag := LoadedPte(p, cm, Data).flag | MODIFIED))
  {
    var t := LoadedPte(p, cm, Text).flag;
    assert (t | MODIFIED) & DIRTY == t & DIRTY;
    var d := LoadedPte(p, cm, Data).flag;
    assert (d | MODIFIED) & DIRTY == d & DIRTY;
  }

  /* What TLB_updating may assume: an address space set up as segment_type
     asserts, a page inside one of its segments (otherwise the source reads
     an unset PTE pointer), and a page-aligned frame. */
  ghost predicate CanRefill(m: Machine, vaddr: nat, paddr: nat)
  {
    MachineOk(m) && m.view.Some? && Defined(m.view.value) &&
    LookupSafe(m.view, PageAlign(vaddr)) && Locate(m.view, PageAlign(vaddr)).Some? &&
    paddr % PAGE_SIZE == 0
  }

  /* The PTE at l with MODIFIED set (pte->flag |= MODIFIED); nothing else
     changes. */
  function MarkModified(m: Machine, l: PteLoc): (r: Machine)
    requires MachineOk(m) && m.view.Some? && InRange(m.view.value, l)
    ensures MachineOk(r) && r.view.Some? && SameLayout(r.view.value, m.view.value)
    ensures r == m.(view := r.view)
    ensures var p := PteAt(m.view.value, l); PteAt(r.view.value, l) == p.(flag := p.flag | MODIFIED)
    ensures forall k :: InRange(m.view.value, k) && k != l ==> PteAt(r.view.value, k) == PteAt(m.view.value, k)
  {
    var v := m.view.value;
    var p := PteAt(v, l);
    assert Resident(p.(flag := p.flag | MODIFIED)) ==> p.cmIndex < |m.frames| by {
      if Has(p.flag | MODIFIED, VALID) && p.cmIndex >= 0 {
        assert (p.flag | MODIFIED) & VALID == p.flag & VALID;
        PteInTable(v, |m.frames|, l);
      }
    }
    SetPteKeepsFramesInTableAt(v, l, p.(flag := p.flag | MODIFIED), |m.frames|);
    m.(view := Some(SetPte(v, l, p.(flag := p.flag | MODIFIED))))
  }

  /* The TLB half of TLB_updating's free-slot branch: e goes into the
     lowest invalid slot i, and next_victim moves off i, with the wrap of
     tlb_get_rr_victim (Bump) or, as written, to i + 1 even past the last
     slot (BumpAsWritten). */
  function FillFree(s: seq<TlbEntry>, nv: nat, e: TlbEntry, asWritten: bool): (r: (seq<TlbEntry>, nat))
    requires FirstInvalid(s) >= 0 && (!asWritten ==> nv < NUM_TLB)
    ensures |r.0| == |s| && r.0[FirstInvalid(s)] == e
    ensures forall k :: 0 <= k < |s| && k != FirstInvalid(s) ==> r.0[k] == s[k]
    ensures !asWritten ==> r.1 < NUM_TLB && r.1 != FirstInvalid(s)
    ensures asWritten ==> r.1 != FirstInvalid(s) && r.1 <= nv + 1
  {
    var i := FirstInvalid(s);
    (s[i := e], if asWritten then BumpAsWritten(nv, i) else Bump(nv, i))
  }

  /* The TLB as_activate leaves: every slot invalid. */
  function ClearedTlb(): (r: seq<TlbEntry>)
    ensures |r| == NUM_TLB && AllInvalid(r)
  {
    seq(NUM_TLB, i requires 0 <= i < NUM_TLB => InvalidEntry(i))
  }

  /* The TLB and next_victim after refills of the pages es, each not yet
     mapped, starting from a cleared TLB with next_victim 0 (as at boot):
     every refill finds a free slot while there is one. asWritten picks
     the bump of vm/vm.c:336-338 as written or the corrected one. */
  function FreeFills(es: seq<TlbEntry>, asWritten: bool): (r: (seq<TlbEntry>, nat))
    requires |es| <= NUM_TLB
    ensures |r.0| == NUM_TLB
    ensures !asWritten ==> r.1 < NUM_TLB
  {
    if |es| == 0 then (ClearedTlb(), 0)
    else
      var (s, nv) := FreeFills(es[..|es| - 1], asWritten);
      if FirstInvalid(s) < 0 then (s, nv)   // not taken, see FreeFillsInOrder
      else FillFree(s, nv, es[|es| - 1], asWritten)
  }

  /* Free-slot refills fill the slots in order, and next_victim follows the
     count of filled slots: it equals it as written, and wraps to 0 when the
     TLB is full with the correction. */
  lemma {:induction false} FreeFillsInOrder(es: seq<TlbEntry>, asWritten: bool)
    requires |es| <= NUM_TLB && forall j :: 0 <= j < |es| ==> es[j].valid
    ensures var r := FreeFills(es, asWritten);
      (forall j :: 0 <= j < NUM_TLB ==> (r.0[j].valid <==> j < |es|)) &&
      (forall j :: 0 <= j < |es| ==> r.0[j] == es[j]) &&
      r.1 == (if asWritten then |es| else |es| % NUM_TLB)
  {
    if |es| > 0 {
      var k := |es| - 1;
      var init := es[..k];
      assert forall j :: 0 <= j < k ==> init[j] == es[j];
      FreeFillsInOrder(init, asWritten);
      var p := FreeFills(init, asWritten);
      FillFreeInOrder(p.0, p.1, es[k], k, asWritten);
      var r := FreeFills(es, asWritten);
      assert r == FillFree(p.0, p.1, es[k], asWritten);
    }
  }

  /* One free-slot refill after k of them. */
  lemma FillFreeInOrder(s: seq<TlbEntry>, nv: nat, e: TlbEntry, k: nat, asWritten: bool)
    requires |s| == NUM_TLB && k < NUM_TLB && e.valid && nv == k
    requires forall j :: 0 <= j < NUM_TLB ==> (s[j].valid <==> j < k)
    ensures FirstInvalid(s) == k
    ensures var r := FillFree(s, nv, e, asWritten);
      (forall j :: 0 <= j < NUM_TLB ==> (r.0[j].valid <==> j < k + 1)) &&
      r.0[k] == e && (forall j :: 0 <= j < NUM_TLB && j != k ==> r.0[j] == s[j]) &&
      r.1 == (if asWritten then k + 1 else (k + 1) % NUM_TLB)
  {
    var i := FirstInvalid(s);
    assert !s[k].valid;
    assert i != -1;
    assert i >= k by { assert !s[i].valid; }
    assert i <= k;
  }

  /* With the bump as written, after NUM_TLB refills from a cleared TLB
     next_victim is NUM_TLB: the TLB has no free slot, so the next refill of
     an unmapped page takes the round-robin victim, and tlb_get_rr_victim
     hands out next_victim itself, an index past the last slot. With the
     correction next_victim has wrapped to slot 0. */
  lemma NextVictimLeavesTlb(es: seq<TlbEntry>)
    requires |es| == NUM_TLB && forall j :: 0 <= j < |es| ==> es[j].valid
    ensures var r := FreeFills(es, true); FirstInvalid(r.0) == -1 && r.1 == NUM_TLB && r.1 >= |r.0|
    ensures var r := FreeFills(es, false); FirstInvalid(r.0) == -1 && r.1 == 0
  {
    FreeFillsInOrder(es, true);
    FreeFillsInOrder(es, false);
  }

  /* TLB_updating: -1 if the page is neither resident nor in swap; 0 with no
     change if the TLB maps it already; else the entry goes into the lowest
     invalid slot (the PTE becomes MODIFIED and next_victim skips the slot),
     or over the round-robin victim (the PTE is unchanged). The error branch
     for a PTE that is neither VALID nor IN_SWAP cannot be reached past the
     first test. */
  function TlbUpdateSpec(m: Machine, vaddr: nat, paddr: nat): (r: (int, Machine))
    requires CanRefill(m, vaddr, paddr)
    ensures MachineOk(r.1) && r.1.frames == m.frames && r.1.swap == m.swap
    ensures r.1.coremapReady == m.coremapReady && r.1.view.Some? && SameLayout(r.1.view.value, m.view.value)
    ensures forall k :: InRange(m.view.value, k) ==>
      var p := PteAt(m.view.value, k);
      PteAt(r.1.view.value, k) == p || PteAt(r.1.view.value, k) == p.(flag := p.flag | MODIFIED)
  {
    var page := PageAlign(vaddr);
    var v := m.view.value;
    var l := Locate(m.view, page).value;
    var p := PteAt(v, l);
    if GetPtEntry(m.view, page) != 0 && !Has(p.flag, IN_SWAP) then (-1, m)
    else if Probe(m.tlb, page) >= 0 then (0, m)
    else
      var e := TlbEntry(page, paddr, Writable(p), true);
      if FirstInvalid(m.tlb) >= 0 then
        var f := FillFree(m.tlb, m.nextVictim, e, false);
        (0, MarkModified(m, l).(tlb := f.0, nextVictim := f.1))
      else
        (0, m.(tlb := m.tlb[m.nextVictim := e], nextVictim := (m.nextVictim + 1) % NUM_TLB))
  }

  /* No two slots hold the same EntryHi. */
  ghost predicate TlbUnique(s: seq<TlbEntry>)
  {
    forall a, b :: 0 <= a < b < |s| ==> s[a].ehi != s[b].ehi
  }

  /* After a successful refill the TLB maps the page, to the given frame if
     it was not mapped before, and every other slot is as it was or (the
     round-robin case) was the victim. */
  lemma RefillMapsPage(m: Machine, vaddr: nat, paddr: nat)
    requires CanRefill(m, vaddr, paddr)
    ensures var r := TlbUpdateSpec(m, vaddr, paddr);
      var page := PageAlign(vaddr);
      r.0 == 0 ==>
        (Probe(r.1.tlb, page) >= 0 &&
         (Probe(m.tlb, page) < 0 ==>
            r.1.tlb[Probe(r.1.tlb, page)].valid && r.1.tlb[Probe(r.1.tlb, page)].paddr == paddr) &&
         (Probe(m.tlb, page) >= 0 ==> r.1.tlb == m.tlb))
  {
    var page := PageAlign(vaddr);
    var r := TlbUpdateSpec(m, vaddr, paddr);
    if r.0 == 0 && Probe(m.tlb, page) < 0 {
      var i := FirstInvalid(m.tlb);
      var j := if i >= 0 then i else m.nextVictim;
      assert r.1.tlb[j].ehi == page && r.1.tlb[j].valid && r.1.tlb[j].paddr == paddr;
      assert forall k :: 0 <= k < |r.1.tlb| && k != j ==> r.1.tlb[k] == m.tlb[k];
      assert Probe(r.1.tlb, page) == j;
    }
  }

  /* A refill never gives a page a second slot: it writes only when the
     probe missed, so distinct EntryHi values stay distinct. */
  lemma RefillKeepsTlbUnique(m: Machine, vaddr: nat, paddr: nat)
    requires CanRefill(m, vaddr, paddr) && TlbUnique(m.tlb)
    ensures TlbUnique(TlbUpdateSpec(m, vaddr, paddr).1.tlb)
  {
    var page := PageAlign(vaddr);
    var r := TlbUpdateSpec(m, vaddr, paddr);
    if r.1.tlb != m.tlb {
      var i := FirstInvalid(m.tlb);
      var j := if i >= 0 then i else m.nextVictim;
      assert Probe(m.tlb, page) == -1;
      assert r.1.tlb == m.tlb[j := TlbEntry(page, paddr, Writable(PteAt(m.view.value, Locate(m.view, page).value)), true)];
      forall a, b | 0 <= a < b < |r.1.tlb|
        ensures r.1.tlb[a].ehi != r.1.tlb[b].ehi
      {
        if a != j && b != j {
          assert r.1.tlb[a] == m.tlb[a] && r.1.tlb[b] == m.tlb[b];
        }
      }
    }
  }

  /* next_victim stays a slot index, and a free-slot fill never leaves it
     pointing at the slot just filled. */
  lemma RefillKeepsVictimInRange(m: Machine, vaddr: nat, paddr: nat)
    requires CanRefill(m, vaddr, paddr)
    ensures var r := TlbUpdateSpec(m, vaddr, paddr);
      r.1.nextVictim < NUM_TLB &&
      (r.1.tlb != m.tlb && FirstInvalid(m.tlb) >= 0 ==> r.1.nextVictim != FirstInvalid(m.tlb))
  {
    var r := TlbUpdateSpec(m, vaddr, paddr);
    var i := FirstInvalid(m.tlb);
    if r.1.tlb != m.tlb && i >= 0 {
      assert r.1.nextVictim == Bump(m.nextVictim, i);
    }
  }

  /* The scan for a slot without TLBLO_VALID. */
  method FindInvalid(tlb: Tlb) returns (i: int)
    requires tlb.Valid()
    ensures i == FirstInvalid(tlb.slots[..])
  {
    i := 0;
    while i < NUM_TLB
      invariant 0 <= i <= NUM_TLB
      invariant FirstInvalid(tlb.slots[..]) == FirstInvalidFrom(tlb.slots[..], i)
    {
      if !tlb.slots[i].valid {
        return i;
      }
      i := i + 1;
    }
    return -1;
  }

  /* The free-slot branch of TLB_updating: write the entry, move next_victim
     off the slot, and mark the PTE MODIFIED. */
  method FillFreeSlot(tlb: Tlb, space: AddrSpace, i: nat, e: TlbEntry, l: PteLoc, q: Pte)
    requires tlb.Valid() && i < NUM_TLB && InRange(space.View(), l)
    modifies tlb, tlb.slots, space
    ensures tlb.Valid() && tlb.slots == old(tlb.slots)
    ensures tlb.slots[..] == old(tlb.slots[..])[i := e] && tlb.nextVictim == Bump(old(tlb.nextVictim), i)
    ensures space.View() == SetPte(old(space.View()), l, q)
  {
    if tlb.nextVictim == i {
      tlb.nextVictim := Bump(tlb.nextVictim, i);
    }
    tlb.slots[i] := e;
    space.Store(l, q);
  }

  /* The replacement branch of TLB_updating: overwrite the round-robin
     victim. */
  method FillVictimSlot(tlb: Tlb, e: TlbEntry)
    requires tlb.Valid()
    modifies tlb, tlb.slots
    ensures tlb.Valid() && tlb.slots == old(tlb.slots)
    ensures tlb.slots[..] == old(tlb.slots[..])[old(tlb.nextVictim) := e]
    ensures tlb.nextVictim == (old(tlb.nextVictim) + 1) % NUM_TLB
  {
    var victim := tlb.RrVictim();
    tlb.slots[victim] := e;
  }

  /* The free-slot branch of TlbUpdateSpec, written out. */
  lemma FreeSlotBranch(m: Machine, vaddr: nat, paddr: nat, e: TlbEntry)
    requires CanRefill(m, vaddr, paddr)
    requires var page := PageAlign(vaddr); var p := PteAt(m.view.value, Locate(m.view, page).value);
      (GetPtEntry(m.view, page) == 0 || Has(p.flag, IN_SWAP)) && Probe(m.tlb, page) < 0 &&
      e == TlbEntry(page, paddr, Writable(p), true) && FirstInvalid(m.tlb) >= 0
    ensures var l := Locate(m.view, PageAlign(vaddr)).value; var p := PteAt(m.view.value, l);
      var i := FirstInvalid(m.tlb);
      TlbUpdateSpec(m, vaddr, paddr) ==
        (0, m.(tlb := m.tlb[i := e], nextVictim := Bump(m.nextVictim, i),
               view := Some(SetPte(m.view.value, l, p.(flag := p.flag | MODIFIED)))))
  {
    var i := FirstInvalid(m.tlb);
    assert FillFree(m.tlb, m.nextVictim, e, false) == (m.tlb[i := e], Bump(m.nextVictim, i));
  }

  /* The round-robin branch of TlbUpdateSpec, written out. */
  lemma VictimSlotBranch(m: Machine, vaddr: nat, paddr: nat, e: TlbEntry)
    requires CanRefill(m, vaddr, paddr)
    requires var page := PageAlign(vaddr); var p := PteAt(m.view.value, Locate(m.view, page).value);
      (GetPtEntry(m.view, page) == 0 || Has(p.flag, IN_SWAP)) && Probe(m.tlb, page) < 0 &&
      e == TlbEntry(page, paddr, Writable(p), true) && FirstInvalid(m.tlb) < 0
    ensures TlbUpdateSpec(m, vaddr, paddr) ==
      (0, m.(tlb := m.tlb[m.nextVictim := e], nextVictim := (m.nextVictim + 1) % NUM_TLB))
  {
  }

  /* TLB_updating on the objects. */
  method TlbUpdating(vaddr: nat, paddr: nat, ft: FrameTable, space: AddrSpace, swap: SwapStore, tlb: Tlb)
    returns (r: int)
    requires Ready(ft, space, swap, tlb) && CanRefill(Snapshot(ft, space, swap, tlb), vaddr, paddr)
    modifies space, tlb, tlb.slots
    ensures Ready(ft, space, swap, tlb) && tlb.slots == old(tlb.slots)
    ensures (r, Snapshot(ft, space, swap, tlb)) == TlbUpdateSpec(old(Snapshot(ft, space, swap, tlb)), vaddr, paddr)
  {
    ghost var m := Snapshot(ft, space, swap, tlb);
    var page := PageAlign(vaddr);
    var code := GetPtEntry(ViewOf(space), page);
    var l := Locate(ViewOf(space), page).value;
    var p := PteAt(space.View(), l);
    if code != 0 && !Has(p.flag, IN_SWAP) {
      return -1;   // still a page fault
    }
    if Probe(tlb.slots[..], page) >= 0 {
      return 0;
    }
    // Past the first test the PTE is VALID (resident) or IN_SWAP, so the
    // source's "invalid entry" branch is never taken; its two other branches
    // both set the write-enable bit to DIRTY || !MODIFIED.
    assert Has(p.flag, VALID) || Has(p.flag, IN_SWAP);
    var writable := Has(p.flag, DIRTY) || !Has(p.flag, MODIFIED);
    var e := TlbEntry(page, paddr, writable, true);
    var i := FindInvalid(tlb);
    if i >= 0 {
      FreeSlotBranch(m, vaddr, paddr, e);
      FillFreeSlot(tlb, space, i, e, l, p.(flag := p.flag | MODIFIED));
      return 0;
    }
    VictimSlotBranch(m, vaddr, paddr, e);
    FillVictimSlot(tlb, e);
    return 0;
  }
}
