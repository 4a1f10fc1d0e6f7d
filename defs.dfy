/*
 * Constants, flag bits, page-table entries and result kinds shared by the
 * virtual-memory model (include/pt.h, include/coremap.h, include/swapfile.h).
 */
module VmDefs {

  /* Hardware and configuration constants. */
  const PAGE_SIZE: nat := 4096
  const USERSTACK: nat := 0x8000_0000      // top of the user stack
  const MIPS_KSEG0: nat := 0x8000_0000     // kernel virtual = physical + MIPS_KSEG0
  const STACK_PAGES: nat := 12             // DUMBVM_STACKPAGES
  const NUM_TLB: nat := 64
  const OPEN_MAX: nat := 128
  const SWAP_SLOTS: nat := 2304            // entries of offset_array
  const SWAPFILE_SIZE: nat := 0x90_0000

  /* Segment tags stored in coremap entries and returned by segment_type. */
  const TEXT: int := 10
  const DATA: int := 11
  const STACK: int := 12
  const KERNEL_TAG: int := 9               // the tag alloc_kpages passes

  /* The PTE flag byte. */
  type Flag = bv8
  const DIRTY: Flag := 0x1
  const MODIFIED: Flag := 0x2
  const VALID: Flag := 0x4
  const IN_SWAP: Flag := 0x8

  predicate Has(f: Flag, bit: Flag) { f & bit != 0 }

  /* vaddr & PAGE_FRAME */
  function PageAlign(a: nat): (r: nat)
    ensures r <= a && r % PAGE_SIZE == 0 && a - r < PAGE_SIZE
  {
    a - a % PAGE_SIZE
  }

  /* struct pt_entry */
  datatype Pte = Pte(cmIndex: int, pageNumber: nat, flag: Flag, swapIndex: int)

  /* A PTE whose page is in a frame: VALID with a frame index. */
  predicate Resident(p: Pte) { Has(p.flag, VALID) && p.cmIndex >= 0 }

  /* Opaque identity of a process (the cm_proc back-reference, curproc). */
  type ProcId = nat

  datatype Option<T> = None | Some(value: T)

  /* Error numbers the core returns; IoError stands for whatever VOP_READ or
     VOP_WRITE reported. */
  datatype Errno = EFAULT | EINVAL | ENOEXEC | EMFILE | EBADF | EUNIMP | ENOMEM | ENPROC | IoError

  /* An int-returning kernel routine: 0, an errno, or the bare -1. */
  datatype Status = Ok | Err(e: Errno) | Fail

  /* Ways a kernel routine can stop instead of returning. */
  datatype Halt = KernelPanic | NullDeref | Spins | ProcExit

  datatype Outcome<T> = Done(value: T) | Stop(why: Halt)
}
