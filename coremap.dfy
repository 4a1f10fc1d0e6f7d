/*
 * The physical frame table (vm/coremap.c) and its release path free_kpages
 * (vm/vm.c:90-125). The globals global_coremap, lo_paddr, hi_paddr and
 * max_pages are the fields of one FrameTable object.
 */
module Coremap {
  import opened VmDefs

  /* struct coremap_entry */
  datatype Frame = Frame(paddr: nat, occupied: bool, length: nat, owner: Option<ProcId>,
                         swappable: bool, segType: int)

  /* A frame as initialisation leaves it. The source never initialises
     cm_swappable; the model starts it false and promises nothing about it. */
  function Blank(paddr: nat): Frame
  {
    Frame(paddr, false, 0, None, false, 0)
  }

  /* Frame k sits k pages above frame 0. */
  ghost predicate LaidOut(fs: seq<Frame>)
  {
    forall k :: 0 <= k < |fs| ==> fs[k].paddr == fs[0].paddr + k * PAGE_SIZE
  }

  /* In a laid-out table, the index of a frame is recovered from its address
     by (paddr - coremap[0]->cm_paddr) / PAGE_SIZE, as load_page and
     read_from_swap compute it. */
  lemma IndexOfFrame(fs: seq<Frame>, k: nat)
    requires LaidOut(fs) && k < |fs|
    ensures fs[k].paddr >= fs[0].paddr
    ensures (fs[k].paddr - fs[0].paddr) / PAGE_SIZE == k
  {
    assert fs[k].paddr - fs[0].paddr == k * PAGE_SIZE;
  }

  /* Is `paddr` the address of one of the frames? */
  ghost predicate IsFrameAddr(fs: seq<Frame>, paddr: nat)
  {
    exists k :: 0 <= k < |fs| && fs[k].paddr == paddr
  }

  /* ---- First fit (vm/coremap.c:103-118) ---- */

  /* Frame i starts a usable run of n: frame i and the n-1 frames after it are
     free, and, because the source tests i + n < max_pages, the run may not
     reach the last frame. */
  predicate Fits(fs: seq<Frame>, i: nat, n: nat)
  {
    i + n < |fs| && !fs[i].occupied && forall j :: i < j < i + n ==> !fs[j].occupied
  }

  function FirstFitFrom(fs: seq<Frame>, n: nat, i: nat): (r: int)
    requires i <= |fs|
    decreases |fs| - i
    ensures r == -1 || i <= r < |fs|
    ensures r >= 0 ==> Fits(fs, r, n) && forall k :: i <= k < r ==> !Fits(fs, k, n)
    ensures r == -1 <==> forall k :: i <= k < |fs| ==> !Fits(fs, k, n)
  {
    if i == |fs| then -1
    else if Fits(fs, i, n) then i
    else FirstFitFrom(fs, n, i + 1)
  }

  /* The lowest index that starts a usable run of n frames, or -1. */
  function FirstFit(fs: seq<Frame>, n: nat): (r: int)
    ensures -1 <= r < |fs|
    ensures r >= 0 ==> Fits(fs, r, n) && forall k :: 0 <= k < r ==> !Fits(fs, k, n)
    ensures r == -1 <==> forall k :: 0 <= k < |fs| ==> !Fits(fs, k, n)
  {
    FirstFitFrom(fs, n, 0)
  }

  /* Because the bound is strict, the last frame is never part of a run:
     a table whose only free frame is the last one cannot serve even n = 1. */
  lemma {:induction false} LastFrameNeverAllocated(fs: seq<Frame>, n: nat)
    requires |fs| > 0 && n > 0
    requires forall k :: 0 <= k < |fs| - 1 ==> fs[k].occupied
    ensures FirstFit(fs, n) == -1
  {
    forall k | 0 <= k < |fs|
      ensures !Fits(fs, k, n)
    {
      if k < |fs| - 1 { assert fs[k].occupied; }
    }
  }

  /* First fit for a smaller request never lands later: the run that serves
     n frames also serves any m <= n. */
  lemma SmallerRequestFitsNoLater(fs: seq<Frame>, m: nat, n: nat)
    requires m <= n && FirstFit(fs, n) >= 0
    ensures 0 <= FirstFit(fs, m) <= FirstFit(fs, n)
  {
    assert Fits(fs, FirstFit(fs, n), m);
  }

  /* ---- Claiming a run (vm/coremap.c:119-125) ---- */

  /* Frame j of a run of n starting at i. */
  function Claimed(f: Frame, len: nat, cur: ProcId, swappable: bool, tag: int): Frame
  {
    f.(occupied := true, length := len, owner := Some(cur), swappable := swappable, segType := tag)
  }

  function ClaimRun(fs: seq<Frame>, i: nat, n: nat, cur: ProcId, swappable: bool, tag: int): (r: seq<Frame>)
    requires i + n <= |fs|
    ensures |r| == |fs|
    ensures forall j :: 0 <= j < |fs| ==> r[j].paddr == fs[j].paddr
    ensures forall j :: 0 <= j < |fs| && !(i <= j < i + n) ==> r[j] == fs[j]
    ensures forall j :: i <= j < i + n ==>
      r[j].occupied && r[j].owner == Some(cur) && r[j].swappable == swappable && r[j].segType == tag &&
      r[j].length == n - (j - i) && r[j].length > 0
  {
    seq(|fs|, j requires 0 <= j < |fs| =>
      if i <= j < i + n then Claimed(fs[j], n - (j - i), cur, swappable, tag) else fs[j])
  }

  /* set_coremap_proc's update of one frame: owned by `cur`, occupied and
     tagged; length and swappable are kept. */
  function Owned(f: Frame, cur: ProcId, tag: int): Frame
  {
    f.(owner := Some(cur), occupied := true, segType := tag)
  }

  /* ---- Releasing a run (vm/vm.c:111-117, vm/addrspace.c:191-194) ---- */

  /* A frame after release: free, unowned, length 0, tag 0 (zero-filled). */
  function Released(f: Frame): Frame
  {
    f.(occupied := false, owner := None, length := 0, segType := 0)
  }

  function FreeRun(fs: seq<Frame>, i: nat, len: nat): (r: seq<Frame>)
    requires i + len <= |fs|
    ensures |r| == |fs|
    ensures forall j :: 0 <= j < |fs| ==> r[j].paddr == fs[j].paddr && r[j].swappable == fs[j].swappable
    ensures forall j :: 0 <= j < |fs| && !(i <= j < i + len) ==> r[j] == fs[j]
    ensures forall j :: i <= j < i + len ==> !r[j].occupied && r[j].owner == None && r[j].length == 0
  {
    seq(|fs|, j requires 0 <= j < |fs| => if i <= j < i + len then Released(fs[j]) else fs[j])
  }

  function Occupancy(fs: seq<Frame>): (r: seq<bool>)
    ensures |r| == |fs| && forall j :: 0 <= j < |fs| ==> r[j] == fs[j].occupied
  {
    seq(|fs|, j requires 0 <= j < |fs| => fs[j].occupied)
  }

  /* Freeing a run right after claiming it (free_kpages reads the length n
     that the claim stored in the run's first frame) gives back exactly the
     occupancy the table had before. */
  lemma ClaimThenFreeRestoresOccupancy(fs: seq<Frame>, i: nat, n: nat, cur: ProcId, sw: bool, tag: int)
    requires n > 0 && Fits(fs, i, n)
    ensures var c := ClaimRun(fs, i, n, cur, sw, tag);
      c[i].length == n && Occupancy(FreeRun(c, i, c[i].length)) == Occupancy(fs)
  {
    var c := ClaimRun(fs, i, n, cur, sw, tag);
    var f := FreeRun(c, i, c[i].length);
    forall j | 0 <= j < |fs|
      ensures f[j].occupied == fs[j].occupied
    {
      if i <= j < i + n {
        assert j == i || i < j < i + n;
      }
    }
  }

  class FrameTable {
    var frames: array<Frame>    // global_coremap
    var ready: bool             // global_coremap != NULL
    var loPaddr: nat            // lo_paddr
    var hiPaddr: nat            // hi_paddr
    var maxPages: nat           // max_pages

    ghost predicate Valid()
      reads this, frames
    {
      frames.Length == maxPages && LaidOut(frames[..]) && (!ready ==> maxPages == 0) &&
      (maxPages > 0 ==> frames[0].paddr % PAGE_SIZE == 0)
    }

    /* The globals before vm_bootstrap: no table yet. */
    constructor ()
      ensures Valid() && !ready && fresh(frames)
      ensures loPaddr == 0 && hiPaddr == 0
    {
      frames := new Frame[0];
      ready := false;
      loPaddr, hiPaddr, maxPages := 0, 0, 0;
    }

    /* coremap_exists */
    predicate CoremapExists()
      reads this
    {
      ready
    }

    /* get_global_coremap: on the first call, build (hi - lo) / PAGE_SIZE blank
       entries, entry i at lo + i * PAGE_SIZE, advancing lo_paddr past the last
       frame; later calls change nothing. ram_getsize's bounds are parameters
       (page-aligned, as the boot code leaves them). */
    method GetGlobalCoremap(ramLo: nat, ramHi: nat)
      requires Valid() && ramLo <= ramHi && ramLo % PAGE_SIZE == 0
      modifies this
      ensures Valid() && ready
      ensures old(ready) ==> (frames == old(frames) && frames[..] == old(frames[..]) &&
        loPaddr == old(loPaddr) && hiPaddr == old(hiPaddr) && maxPages == old(maxPages))
      ensures !old(ready) ==> (fresh(frames) && hiPaddr == ramHi &&
        maxPages == (ramHi - ramLo) / PAGE_SIZE &&
        loPaddr == ramLo + maxPages * PAGE_SIZE &&
        forall i :: 0 <= i < maxPages ==> frames[i] == Blank(ramLo + i * PAGE_SIZE))
    {
      if ready {
        return;
      }
      var lo := ramLo;
      var numPages := (ramHi - lo) / PAGE_SIZE;
      var table := new Frame[numPages];
      var i := 0;
      while i < numPages
        invariant 0 <= i <= numPages && lo == ramLo + i * PAGE_SIZE
        invariant forall k :: 0 <= k < i ==> table[k] == Blank(ramLo + k * PAGE_SIZE)
      {
        table[i] := Blank(lo);
        lo := lo + PAGE_SIZE;
        i := i + 1;
      }
      frames, maxPages := table, numPages;
      loPaddr, hiPaddr := lo, ramHi;
      ready := true;
      assert LaidOut(frames[..]) by {
        forall k | 0 <= k < numPages
          ensures frames[..][k].paddr == frames[..][0].paddr + k * PAGE_SIZE
        {
          assert frames[k] == Blank(ramLo + k * PAGE_SIZE);
        }
      }
    }

    /* set_coremap_proc: out-of-range indices are ignored; otherwise the frame
       becomes occupied, owned by the current process and tagged, with its
       length and swappable flag untouched. */
    method SetCoremapProc(index: nat, segType: int, cur: ProcId)
      requires Valid() && ready
      modifies frames
      ensures Valid()
      ensures index >= maxPages ==> frames[..] == old(frames[..])
      ensures index < maxPages ==> frames[..] == old(frames[..])[index := Owned(old(frames[index]), cur, segType)]
    {
      if index >= maxPages {
        return;
      }
      frames[index] := Owned(frames[index], cur, segType);
    }

    /* The first-fit part of coremap_getFrames: claim the lowest usable run of
       n frames for `cur`, or report that none exists and change nothing. */
    method ClaimFirstFit(n: nat, swappable: bool, segType: int, cur: ProcId) returns (found: bool, paddr: nat)
      requires Valid() && ready
      modifies frames
      ensures Valid()
      ensures found <==> FirstFit(old(frames[..]), n) >= 0
      ensures found ==> var i := FirstFit(old(frames[..]), n);
        paddr == old(frames[i].paddr) && frames[..] == ClaimRun(old(frames[..]), i, n, cur, swappable, segType)
      ensures !found ==> frames[..] == old(frames[..])
    {
      ghost var fs := frames[..];
      var i := 0;
      while i < maxPages
        invariant 0 <= i <= maxPages && frames[..] == fs
        invariant forall k :: 0 <= k < i ==> !Fits(fs, k, n)
      {
        if !frames[i].occupied {
          var lengthFree := true;
          var j := i + 1;
          while j < i + n && j < maxPages
            invariant i + 1 <= j <= maxPages && lengthFree
            invariant forall m :: i < m < j ==> !fs[m].occupied
          {
            if frames[j].occupied {
              lengthFree := false;
              break;
            }
            j := j + 1;
          }
          if lengthFree && i + n < maxPages {
            assert Fits(fs, i, n);
            paddr := frames[i].paddr;
            var k := i;
            while k < i + n
              invariant i <= k <= i + n
              invariant forall m :: 0 <= m < maxPages ==>
                frames[m] == if i <= m < k then Claimed(fs[m], n - (m - i), cur, swappable, segType) else fs[m]
            {
              frames[k] := Claimed(frames[k], n - (k - i), cur, swappable, segType);
              k := k + 1;
            }
            assert frames[..] == ClaimRun(fs, i, n, cur, swappable, segType);
            return true, paddr;
          }
        }
        i := i + 1;
      }
      return false, 0;
    }

    /* free_kpages as written (vm/vm.c:90-117). It compares against lo_paddr,
       which GetGlobalCoremap advanced past the last frame, so see
       FreeKpagesAsWrittenFreesNothing. A run that cur does not own fails
       the KASSERT and the kernel panics. */
    method FreeKpagesAsWritten(addr: nat, cur: ProcId) returns (o: Outcome<()>)
      requires Valid() && ready && addr >= MIPS_KSEG0
      requires addr - MIPS_KSEG0 >= loPaddr ==>
        var index := (addr - MIPS_KSEG0 - loPaddr) / PAGE_SIZE;
        index < maxPages && index + frames[index].length <= maxPages
      modifies frames
      ensures Valid()
      ensures o.Done? ==> o == Done(())
      ensures addr - MIPS_KSEG0 < loPaddr ==> o.Done? && frames[..] == old(frames[..])
      ensures addr - MIPS_KSEG0 >= loPaddr ==>
        var index := (addr - MIPS_KSEG0 - loPaddr) / PAGE_SIZE;
        if old(frames[index].owner) != Some(cur) then o == Stop(KernelPanic) && frames[..] == old(frames[..])
        else o.Done? && frames[..] == FreeRun(old(frames[..]), index, old(frames[index].length))
    {
      var paddr := addr - MIPS_KSEG0;
      if paddr < loPaddr {
        return Done(());   // taken as memory from ram_stealmem
      }
      var index := (paddr - loPaddr) / PAGE_SIZE;
      if frames[index].owner != Some(cur) {
        return Stop(KernelPanic);
      }
      FreeRunAt(index, frames[index].length);
      return Done(());
    }

    /* free_kpages with the evidently intended base: the first frame's address
       (as load_page and read_from_swap use) instead of the advanced lo_paddr. */
    method FreeKpages(addr: nat, cur: ProcId) returns (o: Outcome<()>)
      requires Valid() && ready && addr >= MIPS_KSEG0
      requires maxPages > 0 && addr - MIPS_KSEG0 >= frames[0].paddr ==>
        var index := (addr - MIPS_KSEG0 - frames[0].paddr) / PAGE_SIZE;
        index < maxPages && index + frames[index].length <= maxPages
      modifies frames
      ensures Valid()
      ensures o.Done? ==> o == Done(())
      ensures maxPages == 0 || addr - MIPS_KSEG0 < old(frames[0].paddr) ==> o.Done? && frames[..] == old(frames[..])
      ensures maxPages > 0 && addr - MIPS_KSEG0 >= old(frames[0].paddr) ==>
        var index := (addr - MIPS_KSEG0 - old(frames[0].paddr)) / PAGE_SIZE;
        if old(frames[index].owner) != Some(cur) then o == Stop(KernelPanic) && frames[..] == old(frames[..])
        else o.Done? && frames[..] == FreeRun(old(frames[..]), index, old(frames[index].length))
    {
      var paddr := addr - MIPS_KSEG0;
      if maxPages == 0 || paddr < frames[0].paddr {
        return Done(());
      }
      var index := (paddr - frames[0].paddr) / PAGE_SIZE;
      if frames[index].owner != Some(cur) {
        return Stop(KernelPanic);
      }
      FreeRunAt(index, frames[index].length);
      return Done(());
    }

    /* The release loop shared by both versions of free_kpages. */
    method FreeRunAt(index: nat, length: nat)
      requires Valid() && index + length <= maxPages
      modifies frames
      ensures Valid()
      ensures frames[..] == FreeRun(old(frames[..]), index, length)
    {
      ghost var fs := frames[..];
      var i := index;
      while i < index + length
        invariant index <= i <= index + length
        invariant forall m :: 0 <= m < maxPages ==>
          frames[m] == if index <= m < i then Released(fs[m]) else fs[m]
      {
        frames[i] := Released(frames[i]);
        i := i + 1;
      }
      assert frames[..] == FreeRun(fs, index, length);
    }
  }

  /* Finding, as written: GetGlobalCoremap lays frame i out at
     ramLo + i * PAGE_SIZE and leaves lo_paddr at ramLo + max_pages * PAGE_SIZE,
     and no later claim or release moves a frame's address. So for the
     kernel address of any frame, the test at which free_kpages returns early
     holds: no coremap frame is ever released. */
  lemma FreeKpagesAsWrittenFreesNothing(fs: seq<Frame>, ramLo: nat, lo: nat, k: nat)
    requires forall i :: 0 <= i < |fs| ==> fs[i].paddr == ramLo + i * PAGE_SIZE
    requires lo == ramLo + |fs| * PAGE_SIZE && k < |fs|
    ensures (MIPS_KSEG0 + fs[k].paddr) - MIPS_KSEG0 < lo
  {
    assert fs[k].paddr == ramLo + k * PAGE_SIZE;
  }

  /* Corrected: the index free_kpages computes from the address of frame k
     is k itself, so the run the claim stamped there is the one released. */
  lemma FreeKpagesFindsTheRun(fs: seq<Frame>, k: nat)
    requires LaidOut(fs) && k < |fs|
    ensures MIPS_KSEG0 + fs[k].paddr - MIPS_KSEG0 >= fs[0].paddr
    ensures (MIPS_KSEG0 + fs[k].paddr - MIPS_KSEG0 - fs[0].paddr) / PAGE_SIZE == k
  {
    IndexOfFrame(fs, k);
  }
}
