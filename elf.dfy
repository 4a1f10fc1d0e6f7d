/*
 * The ELF side of the loader (syscall/loadelf.c): the executable-header
 * acceptance test, the program-header walk, and load_elf, which under demand
 * paging only defines the regions of the PT_LOAD headers and returns the
 * entry point. Constants are those of the Tool Interface Standard ELF
 * specification v1.2, Book I, chapter 1 ("ELF Header", "ELF
 * Identification") and chapter 2 ("Program Header"); PT_MIPS_REGINFO is
 * from the System V ABI MIPS processor supplement.
 *
 * The executable is a value: the header if the file holds a whole one, the
 * program headers the file holds whole, keyed by file offset, the file
 * length, and the offsets at which the device fails a read. A read past the
 * end is a short read.
 */
module Elf {
  import opened VmDefs
  import opened PageTable
  import opened AddrSpaces

  /* e_ident indices and values. */
  const EI_NIDENT: nat := 16
  const EI_CLASS: nat := 4
  const EI_DATA: nat := 5
  const EI_VERSION: nat := 6
  const ELFMAG0: bv8 := 0x7f
  const ELFMAG1: bv8 := 0x45   // 'E'
  const ELFMAG2: bv8 := 0x4c   // 'L'
  const ELFMAG3: bv8 := 0x46   // 'F'
  const ELFCLASS32: bv8 := 1
  const ELFDATA2MSB: bv8 := 2
  const EV_CURRENT: nat := 1
  const ET_EXEC: nat := 2
  const EM_MACHINE: nat := 8   // EM_MIPS

  /* Program header types and flags. */
  const PT_NULL: nat := 0
  const PT_LOAD: nat := 1
  const PT_PHDR: nat := 6
  const PT_MIPS_REGINFO: nat := 0x7000_0000
  const PF_X: bv32 := 1
  const PF_W: bv32 := 2
  const PF_R: bv32 := 4

  type Ident = s: seq<bv8> | |s| == EI_NIDENT witness seq(EI_NIDENT, _ => 0)

  /* Elf_Ehdr, the fields the loader reads. */
  datatype ElfHeader = ElfHeader(ident: Ident, version: nat, etype: nat, machine: nat,
                                 entry: nat, phoff: nat, phentsize: nat, phnum: nat)

  /* Elf_Phdr. */
  datatype Phdr = Phdr(ptype: nat, offset: nat, vaddr: nat, filesz: nat, memsz: nat, flags: bv32)

  /* readErrors: the file offsets at which VOP_READ itself fails; its
     errno is IoError. */
  datatype ElfFile = ElfFile(header: Option<ElfHeader>, phdrs: map<nat, Phdr>, size: nat,
                             readErrors: set<nat>)

  /* The acceptance test of load_elf and On_Demand_Loading. */
  predicate HeaderAccepted(eh: ElfHeader)
  {
    eh.ident[0] == ELFMAG0 && eh.ident[1] == ELFMAG1 && eh.ident[2] == ELFMAG2 && eh.ident[3] == ELFMAG3 &&
    eh.ident[EI_CLASS] == ELFCLASS32 && eh.ident[EI_DATA] == ELFDATA2MSB &&
    eh.ident[EI_VERSION] as nat == EV_CURRENT && eh.version == EV_CURRENT &&
    eh.etype == ET_EXEC && eh.machine == EM_MACHINE
  }

  /* The executable header as the loader gets it, or the error it returns. */
  datatype HeaderRead = Header(eh: ElfHeader) | Refused(e: Errno)

  /* Reading and checking the executable header at offset 0: the device's
     error if VOP_READ fails, ENOEXEC for a short read or a header that
     fails the test. */
  function ReadHeader(f: ElfFile): (r: HeaderRead)
    ensures r.Header? <==> 0 !in f.readErrors && f.header.Some? && HeaderAccepted(f.header.value)
    ensures r.Header? ==> r.eh == f.header.value
    ensures r.Refused? ==> r.e == (if 0 in f.readErrors then IoError else ENOEXEC)
  {
    if 0 in f.readErrors then Refused(IoError)
    else match f.header
      case None => Refused(ENOEXEC)
      case Some(eh) => if HeaderAccepted(eh) then Header(eh) else Refused(ENOEXEC)
  }

  /* Where program header i lies, as section "Program Header" of the ELF
     specification lays them out. */
  function PhdrOffset(eh: ElfHeader, i: nat): (r: nat)
    ensures r >= eh.phoff
    ensures i > 0 ==> r == PhdrOffset(eh, i - 1) + eh.phentsize
  {
    eh.phoff + i * eh.phentsize
  }

  /* How the loops treat a program header type. */
  datatype PhdrKind = SkipHeader | LoadHeader | UnknownHeader

  function Kind(ptype: nat): (r: PhdrKind)
    ensures r == LoadHeader <==> ptype == PT_LOAD
    ensures r == SkipHeader <==> ptype in {PT_NULL, PT_PHDR, PT_MIPS_REGINFO}
  {
    if ptype == PT_NULL || ptype == PT_PHDR || ptype == PT_MIPS_REGINFO then SkipHeader
    else if ptype == PT_LOAD then LoadHeader
    else UnknownHeader
  }

  /* The outcome of load_elf: the entry point, or an error. */
  datatype ElfResult = Entry(pc: nat) | Failed(e: Errno)

  /* The header loop of load_elf from header i on: each PT_LOAD header
     defines a region, the skippable types are skipped, anything else, or a
     header the file does not hold whole, is ENOEXEC; a failing read is the
     device's error. */
  function DefineFrom(f: ElfFile, eh: ElfHeader, i: nat, v: AsView): (r: (ElfResult, AsView))
    ensures r.0.Failed? ==> r.0.e == IoError || r.0.e == ENOEXEC || r.0.e == EUNIMP
    ensures r.1.stack == v.stack && r.1.stackpbase == v.stackpbase
    ensures v.vbase1 != 0 ==> r.1.vbase1 == v.vbase1 && r.1.text == v.text
    decreases eh.phnum - i
  {
    if i >= eh.phnum then (Entry(eh.entry), v)
    else if PhdrOffset(eh, i) in f.readErrors then (Failed(IoError), v)
    else if PhdrOffset(eh, i) !in f.phdrs then (Failed(ENOEXEC), v)
    else
      var ph := f.phdrs[PhdrOffset(eh, i)];
      match Kind(ph.ptype)
      case SkipHeader => DefineFrom(f, eh, i + 1, v)
      case UnknownHeader => (Failed(ENOEXEC), v)
      case LoadHeader =>
        var (st, v') := DefineRegionView(v, ph.vaddr, ph.memsz);
        if st.Err? then (Failed(st.e), v') else DefineFrom(f, eh, i + 1, v')
  }

  /* load_elf on an address space value. */
  function LoadElfSpec(f: ElfFile, v: AsView): (r: (ElfResult, AsView))
    ensures r.0.Failed? ==> r.0.e == IoError || r.0.e == ENOEXEC || r.0.e == EUNIMP
    ensures ReadHeader(f).Refused? ==> r.1 == v
    ensures r.1.stack == v.stack && r.1.stackpbase == v.stackpbase
  {
    match ReadHeader(f)
    case Refused(e) => (Failed(e), v)
    case Header(eh) => DefineFrom(f, eh, 0, v)
  }

  /* A header walk that succeeds has read every header i at
     e_phoff + i * e_phentsize, and none had an unknown type. */
  lemma {:induction false} DefineFromReadsAll(f: ElfFile, eh: ElfHeader, i: nat, v: AsView, k: nat)
    requires DefineFrom(f, eh, i, v).0.Entry? && i <= k < eh.phnum
    ensures PhdrOffset(eh, k) !in f.readErrors && PhdrOffset(eh, k) in f.phdrs && Kind(f.phdrs[PhdrOffset(eh, k)].ptype) != UnknownHeader
    ensures DefineFrom(f, eh, i, v).0.pc == eh.entry
    decreases eh.phnum - i
  {
    var ph := f.phdrs[PhdrOffset(eh, i)];
    if k > i {
      if Kind(ph.ptype) == SkipHeader {
        DefineFromReadsAll(f, eh, i + 1, v, k);
      } else {
        var (st, v') := DefineRegionView(v, ph.vaddr, ph.memsz);
        DefineFromReadsAll(f, eh, i + 1, v', k);
      }
    } else {
      DefineFromEntry(f, eh, i, v);
    }
  }

  /* Whenever the walk succeeds it returns e_entry. */
  lemma {:induction false} DefineFromEntry(f: ElfFile, eh: ElfHeader, i: nat, v: AsView)
    requires DefineFrom(f, eh, i, v).0.Entry?
    ensures DefineFrom(f, eh, i, v).0.pc == eh.entry
    decreases eh.phnum - i
  {
    if i < eh.phnum {
      var ph := f.phdrs[PhdrOffset(eh, i)];
      if Kind(ph.ptype) == SkipHeader {
        DefineFromEntry(f, eh, i + 1, v);
      } else {
        var (st, v') := DefineRegionView(v, ph.vaddr, ph.memsz);
        DefineFromEntry(f, eh, i + 1, v');
      }
    }
  }

  /* load_elf succeeds only on an accepted header, returning its e_entry,
     with every program header read without error, present and of a known
     type; a refused header is returned as is and changes nothing. */
  lemma LoadElfResult(f: ElfFile, v: AsView)
    ensures var r := LoadElfSpec(f, v);
      (ReadHeader(f).Refused? ==> r == (Failed(ReadHeader(f).e), v)) &&
      (r.0.Entry? ==>
        ReadHeader(f).Header? && r.0.pc == f.header.value.entry &&
        forall k :: 0 <= k < f.header.value.phnum ==>
          PhdrOffset(f.header.value, k) !in f.readErrors && PhdrOffset(f.header.value, k) in f.phdrs &&
          Kind(f.phdrs[PhdrOffset(f.header.value, k)].ptype) != UnknownHeader)
  {
    var r := LoadElfSpec(f, v);
    if r.0.Entry? {
      var eh := f.header.value;
      DefineFromEntry(f, eh, 0, v);
      forall k | 0 <= k < eh.phnum
        ensures PhdrOffset(eh, k) !in f.readErrors && PhdrOffset(eh, k) in f.phdrs &&
          Kind(f.phdrs[PhdrOffset(eh, k)].ptype) != UnknownHeader
      {
        DefineFromReadsAll(f, eh, 0, v, k);
      }
    }
  }

  /* An executable with one text and one data PT_LOAD header (and any
     skippable headers) loaded into a fresh address space defines text from
     the first and data from the second. */
  lemma TwoLoadHeadersDefineTextAndData(f: ElfFile, t: Phdr, d: Phdr)
    requires ReadHeader(f).Header? && f.header.value.phnum == 2
    requires PhdrOffset(f.header.value, 0) !in f.readErrors && PhdrOffset(f.header.value, 1) !in f.readErrors
    requires PhdrOffset(f.header.value, 0) in f.phdrs && f.phdrs[PhdrOffset(f.header.value, 0)] == t
    requires PhdrOffset(f.header.value, 1) in f.phdrs && f.phdrs[PhdrOffset(f.header.value, 1)] == d
    requires t.ptype == PT_LOAD && d.ptype == PT_LOAD && t.vaddr >= PAGE_SIZE
    ensures var r := LoadElfSpec(f, EmptyView);
      r.0 == Entry(f.header.value.entry) &&
      (r.1.vbase1, r.1.npages1) == AlignRegion(t.vaddr, t.memsz) &&
      (r.1.vbase2, r.1.npages2) == AlignRegion(d.vaddr, d.memsz)
  {
    var eh := f.header.value;
    var v1 := DefineRegionView(EmptyView, t.vaddr, t.memsz).1;
    assert v1.vbase1 != 0;
    assert DefineFrom(f, eh, 0, EmptyView) == DefineFrom(f, eh, 1, v1);
    var v2 := DefineRegionView(v1, d.vaddr, d.memsz).1;
    assert DefineFrom(f, eh, 1, v1) == DefineFrom(f, eh, 2, v2);
  }

  /* load_elf on the current address space: the header loop of vm/loadelf.c
     with as_define_region per PT_LOAD header. */
  method LoadElf(f: ElfFile, space: AddrSpace) returns (r: ElfResult)
    modifies space
    ensures (r, space.View()) == LoadElfSpec(f, old(space.View()))
  {
    var hdr := ReadHeader(f);
    if hdr.Refused? {
      return Failed(hdr.e);
    }
    var eh := hdr.eh;
    ghost var goal := DefineFrom(f, eh, 0, space.View());
    var i := 0;
    while i < eh.phnum
      invariant DefineFrom(f, eh, i, space.View()) == goal
      decreases eh.phnum - i
    {
      var offset := PhdrOffset(eh, i);
      if offset in f.readErrors {
        return Failed(IoError);   // VOP_READ's own error
      }
      if offset !in f.phdrs {
        return Failed(ENOEXEC);   // short read on a program header
      }
      var ph := f.phdrs[offset];
      var kind := Kind(ph.ptype);
      if kind == UnknownHeader {
        return Failed(ENOEXEC);
      }
      if kind == LoadHeader {
        var st := space.DefineRegion(ph.vaddr, ph.memsz, ph.flags & PF_R != 0, ph.flags & PF_W != 0,
                                     ph.flags & PF_X != 0);
        if st.Err? {
          return Failed(st.e);
        }
      }
      i := i + 1;
    }
    return Entry(eh.entry);
  }

  /* ---- The per-page choice of On_Demand_Loading (loadelf.c:488-503) ---- */

  /* What fills a faulting page that lies off bytes into its segment: a zero
     page when the segment's file image ends before it, else the rest of the
     file image, at most one page. */
  datatype PagePlan = ZeroPage | ReadBytes(n: nat)

  function PlanPage(filesz: nat, off: nat): (r: PagePlan)
    ensures r == ZeroPage <==> filesz < off
    ensures r.ReadBytes? ==> r.n <= PAGE_SIZE && off + r.n <= filesz
    ensures r.ReadBytes? && filesz - off >= PAGE_SIZE ==> r.n == PAGE_SIZE
    ensures r.ReadBytes? && filesz - off < PAGE_SIZE ==> off + r.n == filesz
  {
    if filesz < off then ZeroPage
    else if PAGE_SIZE >= filesz - off then ReadBytes(filesz - off)
    else ReadBytes(PAGE_SIZE)
  }

  /* The pages of a segment together read its whole file image, each byte
     once: page j (at off = j * PAGE_SIZE) reads file bytes
     [off, off + n), and n is a full page until the image runs out. */
  lemma {:induction false} PagesCoverFileImage(filesz: nat, j: nat)
    ensures var off := j * PAGE_SIZE;
      var plan := PlanPage(filesz, off);
      (off <= filesz ==> plan.ReadBytes? && (plan.n == PAGE_SIZE || off + plan.n == filesz)) &&
      (off > filesz ==> plan == ZeroPage) &&
      (j > 0 && off <= filesz ==> PlanPage(filesz, (j - 1) * PAGE_SIZE) == ReadBytes(PAGE_SIZE))
  {
    if j > 0 && j * PAGE_SIZE <= filesz {
      assert (j - 1) * PAGE_SIZE + PAGE_SIZE == j * PAGE_SIZE;
    }
  }

  /* load_segment (loadelf.c:94-175) with memsize and filesize as the
     caller passes them: filesize is clamped to memsize, a read that fails
     gives the device's error, a read of one byte or more that runs past the
     end of the file is short and gives ENOEXEC (a read of no bytes leaves
     nothing unread, wherever it starts), and the remaining memsize - filesize bytes are
     zero-filled. */
  datatype SegmentLoad = SegmentLoad(st: Status, read: nat, zeroed: nat)

  function LoadSegmentSpec(f: ElfFile, offset: nat, memsize: nat, filesize: nat): (r: SegmentLoad)
    ensures r.read == if filesize > memsize then memsize else filesize
    ensures r.st == Ok <==> offset !in f.readErrors && (r.read == 0 || offset + r.read <= f.size)
    ensures r.st != Ok ==> r.st == Err(if offset in f.readErrors then IoError else ENOEXEC)
    ensures r.st == Ok ==> r.read + r.zeroed == memsize
  {
    var n := if filesize > memsize then memsize else filesize;
    if offset in f.readErrors then SegmentLoad(Err(IoError), n, 0)
    else if n > 0 && offset + n > f.size then SegmentLoad(Err(ENOEXEC), n, 0)
    else SegmentLoad(Ok, n, memsize - n)
  }
}
