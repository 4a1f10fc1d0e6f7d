/*
 * The per-process file table of syscall/filetable.c: OPEN_MAX slots, a
 * bitmap of the descriptors in use and the counter num_files. A File is an
 * object that duplicate_filetable shares between two tables. The vnode is
 * an opaque number; vfs_close, VOP_INCOPEN, the rw_lock and kfree belong to
 * code outside this model.
 */
module FileTables {
  import opened VmDefs

  /* num_files is an unsigned int: it wraps modulo 2^32. */
  const UINT_RANGE: nat := 0x1_0000_0000

  function AddU32(n: nat, k: int): (r: nat)
    requires n < UINT_RANGE
    ensures r < UINT_RANGE && (0 <= n + k < UINT_RANGE ==> r == n + k)
  {
    (n + k) % UINT_RANGE
  }

  /* The lowest clear bit of the bitmap, or -1 when every bit is set: the
     descriptor create_file_and_add_to_table hands out. */
  function FirstClear(s: seq<bool>): (r: int)
    ensures -1 <= r < |s|
    ensures r >= 0 ==> !s[r] && forall k :: 0 <= k < r ==> s[k]
    ensures r == -1 <==> forall k :: 0 <= k < |s| ==> s[k]
  {
    FirstClearFrom(s, 0)
  }

  function FirstClearFrom(s: seq<bool>, i: nat): (r: int)
    requires i <= |s|
    requires forall k :: 0 <= k < i ==> s[k]
    ensures -1 <= r < |s| && (r >= 0 ==> i <= r)
    ensures r >= 0 ==> !s[r] && forall k :: 0 <= k < r ==> s[k]
    ensures r == -1 <==> forall k :: 0 <= k < |s| ==> s[k]
    decreases |s| - i
  {
    if i == |s| then -1
    else if !s[i] then i
    else FirstClearFrom(s, i + 1)
  }

  /* The number of set bits: what num_files counts. */
  function CountSet(s: seq<bool>): (n: nat)
    ensures n <= |s|
    ensures n == 0 <==> forall k :: 0 <= k < |s| ==> !s[k]
  {
    if s == [] then 0
    else CountSet(s[..|s| - 1]) + (if s[|s| - 1] then 1 else 0)
  }

  /* Taking one more from a wrapped difference. */
  lemma AddU32Step(n: nat, c: nat)
    requires n < UINT_RANGE
    ensures AddU32(AddU32(n, -(c as int)), -1) == AddU32(n, -(c as int) - 1)
  {
    var x := n - c;
    var q := x / UINT_RANGE;
    assert x == q * UINT_RANGE + x % UINT_RANGE;
    if x % UINT_RANGE == 0 {
      assert x - 1 == (q - 1) * UINT_RANGE + (UINT_RANGE - 1);
    } else {
      assert x - 1 == q * UINT_RANGE + (x % UINT_RANGE - 1);
    }
  }

  /* The count of a prefix one bit longer. */
  lemma CountPrefix(s: seq<bool>, i: nat)
    requires i < |s|
    ensures CountSet(s[..i + 1]) == CountSet(s[..i]) + (if s[i] then 1 else 0)
  {
    assert s[..i + 1][..i] == s[..i];
  }

  /* Setting a clear bit adds one to the count. */
  lemma {:induction false} CountMark(s: seq<bool>, i: nat)
    requires i < |s| && !s[i]
    ensures CountSet(s[i := true]) == CountSet(s) + 1
    decreases |s|
  {
    var t := s[i := true];
    if i < |s| - 1 {
      assert t[..|t| - 1] == s[..|s| - 1][i := true];
      CountMark(s[..|s| - 1], i);
    } else {
      assert t[..|t| - 1] == s[..|s| - 1];
    }
  }

  /* Clearing a set bit takes one from the count. */
  lemma {:induction false} CountUnmark(s: seq<bool>, i: nat)
    requires i < |s| && s[i]
    ensures CountSet(s[i := false]) == CountSet(s) - 1
    decreases |s|
  {
    var t := s[i := false];
    if i < |s| - 1 {
      assert t[..|t| - 1] == s[..|s| - 1][i := false];
      CountUnmark(s[..|s| - 1], i);
    } else {
      assert t[..|t| - 1] == s[..|s| - 1];
    }
  }

  /* What file_exists_in_table reports: EBADF for a descriptor past the
     table, else the bit. In C both EBADF and a set bit are non-zero. */
  datatype Presence = BadHandle | Bit(isSet: bool)

  /* An open file: the vnode (None once closed), the open flags, the
     descriptor and the offset. */
  class OpenFile {
    var vn: Option<nat>
    var flags: int
    var fd: nat
    var offset: int

    constructor (vn: nat, flags: int, fd: nat)
      ensures this.vn == Some(vn) && this.flags == flags && this.fd == fd && offset == 0
    {
      this.vn := Some(vn);
      this.flags := flags;
      this.fd := fd;
      offset := 0;
    }
  }

  class FileTable {
    var files: array<OpenFile?>
    var numFiles: nat
    var bm: array<bool>

    ghost predicate Valid()
      reads this
    {
      files.Length == OPEN_MAX && bm.Length == OPEN_MAX && numFiles < UINT_RANGE
    }

    /* A descriptor is in use exactly when its slot holds a file. */
    ghost predicate Consistent()
      requires Valid()
      reads this, files, bm
    {
      forall i :: 0 <= i < OPEN_MAX ==> (bm[i] <==> files[i] != null)
    }

    /* num_files counts the descriptors in use. */
    ghost predicate Counted()
      reads this, bm
    {
      numFiles == CountSet(bm[..])
    }

    /* The table create_filetable builds: num_files 0 and a clear bitmap
       of OPEN_MAX bits. The slots of the kmalloc'd table are taken to be
       null. */
    constructor ()
      ensures Valid() && fresh(files) && fresh(bm) && numFiles == 0
      ensures forall i :: 0 <= i < OPEN_MAX ==> !bm[i] && files[i] == null
      ensures Consistent() && Counted()
    {
      files := new OpenFile?[OPEN_MAX](_ => null);
      bm := new bool[OPEN_MAX](_ => false);
      numFiles := 0;
      new;
      assert forall k :: 0 <= k < OPEN_MAX ==> !bm[..][k];
    }

    /* create_filetable: NULL when kmalloc or bitmap_create fails. */
    static method Create(tableOk: bool, bitmapOk: bool) returns (ft: FileTable?)
      ensures !tableOk || !bitmapOk ==> ft == null
      ensures tableOk && bitmapOk ==>
        ft != null && fresh(ft) && fresh(ft.files) && fresh(ft.bm) && ft.Valid() && ft.numFiles == 0 &&
        (forall i :: 0 <= i < OPEN_MAX ==> !ft.bm[i]) && ft.Consistent() && ft.Counted()
    {
      if !tableOk || !bitmapOk {
        return null;
      }
      ft := new FileTable();
    }

    /* file_exists_in_table. */
    function Exists(fd: nat): (r: Presence)
      requires Valid()
      reads this, bm
      ensures r == BadHandle <==> fd >= OPEN_MAX
      ensures r == Bit(true) <==> fd < OPEN_MAX && bm[fd]
    {
      if fd >= OPEN_MAX then BadHandle else Bit(bm[fd])
    }

    /* get_file_by_id: EBADF past the table, else 0 (a clear bit is a
       KASSERT failure). The file is stored only into the by-value
       parameter, so no file reaches the caller. */
    function GetFileById(fd: nat): (r: Status)
      requires Valid() && (fd < OPEN_MAX ==> bm[fd])
      reads this, bm
      ensures r == Ok <==> fd < OPEN_MAX
      ensures r != Ok ==> r == Err(EBADF)
    {
      if fd >= OPEN_MAX then Err(EBADF) else Ok
    }

    /* create_file_and_add_to_table: a new File on the lowest unused
       descriptor, or EMFILE when all OPEN_MAX are in use; -1 when the File
       or its lock cannot be allocated. fd is what *fd receives. */
    method CreateFile(vn: nat, flags: int, allocOk: bool) returns (r: Status, fd: Option<nat>)
      requires Valid()
      modifies this, bm, files
      ensures Valid() && bm == old(bm) && files == old(files)
      ensures !allocOk ==> r == Fail && fd == None
      ensures allocOk && FirstClear(old(bm[..])) == -1 ==> r == Err(EMFILE) && fd == None
      ensures r != Ok ==>
        bm[..] == old(bm[..]) && files[..] == old(files[..]) && numFiles == old(numFiles)
      ensures allocOk && FirstClear(old(bm[..])) >= 0 ==>
        var j := FirstClear(old(bm[..]));
        r == Ok && fd == Some(j) && Exists(j) == Bit(true) &&
        bm[..] == old(bm[..])[j := true] && numFiles == AddU32(old(numFiles), 1) &&
        files[j] != null && fresh(files[j]) && files[j].vn == Some(vn) && files[j].flags == flags &&
        files[j].offset == 0 && files[j].fd == j &&
        forall k :: 0 <= k < OPEN_MAX && k != j ==> files[k] == old(files[k])
      ensures old(Consistent()) ==> Consistent()
      ensures old(Counted()) ==> Counted()
    {
      if !allocOk {
        return Fail, None;
      }
      var i := 0;
      while i < OPEN_MAX
        invariant 0 <= i <= OPEN_MAX
        invariant forall k :: 0 <= k < i ==> bm[k]
      {
        if !bm[i] {
          assert FirstClear(bm[..]) == i;
          CountMark(bm[..], i);
          var f := new OpenFile(vn, flags, i);
          bm[i] := true;
          files[i] := f;
          numFiles := AddU32(numFiles, 1);
          return Ok, Some(i);
        }
        i := i + 1;
      }
      return Err(EMFILE), None;
    }

    /* close_file_and_remove_from_table: -1 for an unused descriptor;
       otherwise the File's vnode is closed and set to NULL, the bit
       cleared, the slot nulled and num_files decremented. The descriptor
       must be inside the bitmap (bitmap_isset asserts it). */
    method Close(fd: nat) returns (r: Status)
      requires Valid() && fd < OPEN_MAX && (bm[fd] ==> files[fd] != null)
      modifies this, bm, files, files[fd]
      ensures Valid() && bm == old(bm) && files == old(files)
      ensures !old(bm[fd]) ==>
        r == Fail && bm[..] == old(bm[..]) && files[..] == old(files[..]) && numFiles == old(numFiles)
      ensures old(bm[fd]) ==>
        r == Ok && Exists(fd) == Bit(false) &&
        bm[..] == old(bm[..])[fd := false] && files[..] == old(files[..])[fd := null] &&
        numFiles == AddU32(old(numFiles), -1) && old(files[fd]).vn == None
      ensures old(Consistent()) ==> Consistent()
      ensures old(Counted()) ==> Counted()
    {
      if !bm[fd] {
        return Fail;
      }
      CountUnmark(bm[..], fd);
      var f := files[fd];
      f.vn := None;
      bm[fd] := false;
      files[fd] := null;
      numFiles := AddU32(numFiles, -1);
      return Ok;
    }

    /* destroy_filetable: only descriptors 0, 1 and 2 are released, each
       one that is in use taking one from num_files; descriptors from 3 up
       stay as they are. It always returns 0. */
    method Destroy() returns (r: Status)
      requires Valid()
      modifies this, bm, files
      ensures Valid() && bm == old(bm) && files == old(files) && r == Ok
      ensures forall i :: 0 <= i < OPEN_MAX ==> bm[i] == (old(bm[i]) && i >= 3)
      ensures forall i :: 0 <= i < OPEN_MAX ==> files[i] == if i < 3 && old(bm[i]) then null else old(files[i])
      ensures numFiles == AddU32(old(numFiles), -(CountSet(old(bm[..3])) as int))
      ensures old(Consistent()) ==> Consistent()
      ensures old(Counted()) ==> Counted()
    {
      ghost var b0 := bm[..];
      var i := 0;
      while i < 3
        invariant 0 <= i <= 3 && Valid() && bm == old(bm) && files == old(files)
        invariant forall k :: 0 <= k < OPEN_MAX ==> bm[k] == (b0[k] && (k >= i || k >= 3))
        invariant forall k :: 0 <= k < OPEN_MAX ==> files[k] == if k < i && b0[k] then null else old(files[k])
        invariant numFiles == AddU32(old(numFiles), -(CountSet(b0[..i]) as int))
        invariant old(Counted()) ==> Counted()
      {
        CountPrefix(b0, i);
        if bm[i] {
          AddU32Step(old(numFiles), CountSet(b0[..i]));
          CountUnmark(bm[..], i);
          files[i] := null;
          numFiles := AddU32(numFiles, -1);
          bm[i] := false;
        }
        i := i + 1;
      }
      return Ok;
    }

    /* duplicate_filetable(src, dest), as a method of dest: dest takes
       src's num_files and a new bitmap, then every descriptor in use in
       src is marked in dest and its slot shares src's File, while unused
       slots become null. When the bitmap cannot be created, -1 is returned
       (and dest, already given src's num_files, is freed). When src is
       dest, the loop reads the new, clear bitmap and so empties the table
       while num_files keeps its value. */
    method DuplicateFrom(src: FileTable, bitmapOk: bool) returns (r: Status)
      requires Valid() && src.Valid() && (src != this ==> src.files != files && src.Consistent())
      modifies this, files
      ensures Valid() && files == old(files) && numFiles == old(src.numFiles)
      ensures !bitmapOk ==> r == Fail && bm == old(bm) && files[..] == old(files[..])
      ensures bitmapOk ==> r == Ok && fresh(bm)
      ensures bitmapOk && src != this ==>
        bm[..] == old(src.bm[..]) && files[..] == old(src.files[..]) && Consistent() &&
        (old(src.Counted()) ==> Counted()) &&
        src.bm == old(src.bm) && src.files[..] == old(src.files[..])
      ensures bitmapOk && src == this ==>
        forall i :: 0 <= i < OPEN_MAX ==> !bm[i] && files[i] == null
    {
      numFiles := src.numFiles;
      if !bitmapOk {
        return Fail;
      }
      var nb := new bool[OPEN_MAX](_ => false);
      bm := nb;
      var i := 0;
      while i < OPEN_MAX
        invariant 0 <= i <= OPEN_MAX && Valid() && bm == nb && files == old(files)
        invariant numFiles == old(src.numFiles)
        invariant src != this ==> src.bm == old(src.bm) && src.files[..] == old(src.files[..])
        invariant src != this ==> forall k :: 0 <= k < OPEN_MAX ==> bm[k] == (k < i && src.bm[k])
        invariant src != this ==> forall k :: 0 <= k < i ==> files[k] == src.files[k]
        invariant src == this ==> forall k :: 0 <= k < OPEN_MAX ==> !bm[k]
        invariant src == this ==> forall k :: 0 <= k < i ==> files[k] == null
      {
        if src.bm[i] {
          bm[i] := true;
          files[i] := src.files[i];
        } else {
          files[i] := null;
        }
        i := i + 1;
      }
      return Ok;
    }
  }
}
