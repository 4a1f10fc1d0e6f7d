/*
 * The software-refilled TLB: NUM_TLB slots of (EntryHi, EntryLo) plus the
 * round-robin counter next_victim (vm/vm.c:33-41, syscall/loadelf.c:85-90).
 * The hardware primitives tlb_probe, tlb_read, tlb_write are a linear probe
 * and plain array reads and writes of the slots.
 */
module Tlb {
  import opened VmDefs

  /* One slot: EntryHi (a virtual page) and EntryLo reduced to its frame
     address and its DIRTY (writable) and VALID bits. */
  datatype TlbEntry = TlbEntry(ehi: nat, paddr: nat, dirty: bool, valid: bool)

  /* TLBHI_INVALID(i) / TLBLO_INVALID(): a distinct kernel page per slot,
     so an invalidated slot never matches a user address. */
  function InvalidEntry(i: nat): TlbEntry
  {
    TlbEntry(MIPS_KSEG0 + i * PAGE_SIZE, 0, false, false)
  }

  /* tlb_probe: the lowest slot whose EntryHi is vaddr, or -1. */
  function Probe(s: seq<TlbEntry>, vaddr: nat): (r: int)
    ensures -1 <= r < |s|
    ensures r >= 0 ==> s[r].ehi == vaddr && forall k :: 0 <= k < r ==> s[k].ehi != vaddr
    ensures r == -1 <==> forall k :: 0 <= k < |s| ==> s[k].ehi != vaddr
  {
    if |s| == 0 then -1
    else if s[0].ehi == vaddr then 0
    else
      var r := Probe(s[1..], vaddr);
      if r == -1 then -1 else r + 1
  }

  /* The TLB after the invalidation loop of as_activate / as_destroy. */
  ghost predicate AllInvalid(s: seq<TlbEntry>)
  {
    forall i :: 0 <= i < |s| ==> s[i] == InvalidEntry(i)
  }

  /* After a full invalidation no user address is mapped. */
  lemma InvalidatedMapsNoUserPage(s: seq<TlbEntry>, vaddr: nat)
    requires AllInvalid(s) && vaddr < USERSTACK
    ensures Probe(s, vaddr) == -1
  {
  }

  /* Slot i after "if tlb_probe(vaddr) hits slot i, write TLBHI_INVALID(i)". */
  function InvalidateMatching(s: seq<TlbEntry>, vaddr: nat): (r: seq<TlbEntry>)
    ensures |r| == |s|
    ensures Probe(s, vaddr) == -1 ==> r == s
    ensures Probe(s, vaddr) >= 0 ==>
      r[Probe(s, vaddr)] == InvalidEntry(Probe(s, vaddr)) &&
      forall k :: 0 <= k < |s| && k != Probe(s, vaddr) ==> r[k] == s[k]
  {
    var i := Probe(s, vaddr);
    if i >= 0 then s[i := InvalidEntry(i)] else s
  }

  /* If the page had only one slot, it has none afterwards. */
  lemma InvalidateMatchingUnmaps(s: seq<TlbEntry>, vaddr: nat)
    requires vaddr < USERSTACK
    requires forall a, b :: 0 <= a < b < |s| ==> s[a].ehi != s[b].ehi || s[a].ehi != vaddr
    ensures Probe(InvalidateMatching(s, vaddr), vaddr) == -1
  {
    var r := InvalidateMatching(s, vaddr);
    var i := Probe(s, vaddr);
    if i >= 0 {
      forall k | 0 <= k < |r|
        ensures r[k].ehi != vaddr
      {
        if k != i {
          assert s[k].ehi != vaddr by {
            if k < i { } else { assert s[i].ehi == vaddr; }
          }
        }
      }
    }
  }

  /* The corrected bump of next_victim after TLB_updating filled free
     slot `used` (see BumpAsWritten): it wraps like tlb_get_rr_victim. */
  function Bump(nv: nat, used: nat): (r: nat)
    requires nv < NUM_TLB
    ensures r < NUM_TLB
    ensures nv == used ==> r != used
    ensures nv != used ==> r == nv
  {
    if nv == used then (nv + 1) % NUM_TLB else nv
  }

  /* vm/vm.c:336-338 as written: next_victim += 1 with no wrap, so filling
     the last slot while next_victim points at it leaves next_victim at
     NUM_TLB, which is no slot. */
  function BumpAsWritten(nv: nat, used: nat): (r: nat)
    ensures nv != used ==> r == nv
    ensures nv == used ==> r != used && r == used + 1
    ensures nv < NUM_TLB && r != Bump(nv, used) ==> nv == used == NUM_TLB - 1 && r == NUM_TLB
  {
    if nv == used then nv + 1 else nv
  }

  class Tlb {
    var slots: array<TlbEntry>
    var nextVictim: nat

    ghost predicate Valid()
      reads this
    {
      slots.Length == NUM_TLB && nextVictim < NUM_TLB
    }

    /* The TLB at boot: every slot invalid, next_victim = 0. */
    constructor ()
      ensures Valid() && fresh(slots) && nextVictim == 0
      ensures AllInvalid(slots[..])
    {
      slots := new TlbEntry[NUM_TLB](i => InvalidEntry(i));
      nextVictim := 0;
    }

    /* tlb_get_rr_victim: the current counter, advanced modulo NUM_TLB. */
    method RrVictim() returns (v: nat)
      requires Valid()
      modifies this
      ensures Valid() && slots == old(slots)
      ensures v == old(nextVictim) && v < NUM_TLB
      ensures nextVictim == (v + 1) % NUM_TLB
    {
      v := nextVictim;
      nextVictim := (nextVictim + 1) % NUM_TLB;
    }

    /* The loop "for i < NUM_TLB: tlb_write(TLBHI_INVALID(i), TLBLO_INVALID(), i)". */
    method InvalidateAll()
      requires Valid()
      modifies slots
      ensures AllInvalid(slots[..])
    {
      var i := 0;
      while i < NUM_TLB
        invariant 0 <= i <= NUM_TLB
        invariant forall k :: 0 <= k < i ==> slots[k] == InvalidEntry(k)
      {
        slots[i] := InvalidEntry(i);
        i := i + 1;
      }
    }

    /* write_to_swap's "if tlb_probe(vaddr) >= 0, invalidate that slot". */
    method InvalidatePage(vaddr: nat)
      requires Valid()
      modifies slots
      ensures slots[..] == InvalidateMatching(old(slots[..]), vaddr)
    {
      var i := Probe(slots[..], vaddr);
      if i >= 0 {
        slots[i] := InvalidEntry(i);
      }
    }
  }
}
