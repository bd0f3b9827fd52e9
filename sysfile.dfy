/**
 * The per-process table bookkeeping of kernel/sysfile.c: the file
 * descriptor table (`argfd`, `fdalloc`), the access decoding of `sys_open`,
 * and the VMA table behind `mmap`/`munmap` (`findvma`, `sys_mmap`,
 * `sys_munmap`) with the page permissions a lazy fault maps
 * (`vmatraylazy_touch`).
 *
 * `prot`, `flags` and `omode` are C `int` bit patterns (`bv32`); addresses
 * are `uint64` (`Word`) and address sums wrap modulo 2^64.  Argument
 * fetching, the file and inode calls, `filedup`/`fileclose`, `vmaunmap`,
 * `readi` and `mappages` are outside this model.
 */
module SysFile {
  import opened Common

  const NOFILE: nat := 16
  const MAXVMANUM: nat := 16
  const U64: nat := 0x1_0000_0000_0000_0000
  /** The all-ones `uint64` that `sys_mmap` returns on failure. */
  const MMAP_ERR: nat := U64 - 1
  const MAXVA: nat := 0x40_0000_0000
  /** The top of the mmap area: just below the trapframe page. */
  const MMAPEND: nat := MAXVA - 2 * PGSIZE

  const O_RDONLY: bv32 := 0x000
  const O_WRONLY: bv32 := 0x001
  const O_RDWR: bv32 := 0x002
  const O_CREATE: bv32 := 0x200
  const O_TRUNC: bv32 := 0x400

  const PROT_READ: bv32 := 0x1
  const PROT_WRITE: bv32 := 0x2
  const PROT_EXEC: bv32 := 0x4
  const MAP_SHARED: bv32 := 0x01
  const MAP_PRIVATE: bv32 := 0x02

  const PTE_V: bv32 := 0x01
  const PTE_R: bv32 := 0x02
  const PTE_W: bv32 := 0x04
  const PTE_X: bv32 := 0x08
  const PTE_U: bv32 := 0x10

  /** A `uint64`. */
  type Word = x: int | 0 <= x < 0x1_0000_0000_0000_0000

  function PgRoundDown(a: Word): (r: Word)
    ensures r <= a && r % PGSIZE == 0 && a - r < PGSIZE
  {
    a - a % PGSIZE
  }

  // ---------------------------------------------------------------------------
  // sys_open: the access a file is opened with
  // ---------------------------------------------------------------------------

  datatype Access = Access(readable: bool, writable: bool)

  /**
   * `f->readable` and `f->writable` for open mode `omode`: O_RDONLY reads,
   * O_WRONLY writes, O_RDWR does both, and setting both bits writes only;
   * every mode grants some access.
   */
  function OpenAccess(omode: bv32): (r: Access)
    ensures omode & 3 == O_RDONLY ==> r == Access(true, false)
    ensures omode & 3 == O_WRONLY ==> r == Access(false, true)
    ensures omode & 3 == O_RDWR ==> r == Access(true, true)
    ensures omode & 3 == O_WRONLY | O_RDWR ==> r == Access(false, true)
    ensures r.readable || r.writable
  {
    Access(omode & O_WRONLY == 0, omode & O_WRONLY != 0 || omode & O_RDWR != 0)
  }

  /** Only the two access bits matter: O_CREATE, O_TRUNC and the rest do not change the access. */
  lemma OpenIgnoresOtherFlags(omode: bv32)
    ensures OpenAccess(omode) == OpenAccess(omode & 3)
  {
  }

  /** A `struct file` as far as `mmap` looks at it. */
  class OpenFile {
    const readable: bool
    const writable: bool

    /** The file `sys_open` sets up for mode `omode`. */
    constructor Open(omode: bv32)
      ensures Access(readable, writable) == OpenAccess(omode)
    {
      readable := omode & O_WRONLY == 0;
      writable := omode & O_WRONLY != 0 || omode & O_RDWR != 0;
    }
  }

  // ---------------------------------------------------------------------------
  // argfd and fdalloc
  // ---------------------------------------------------------------------------

  /**
   * `argfd`: the open file behind descriptor `fd`, if `fd` is in range and
   * its slot is in use.
   */
  function ArgFd(ofile: seq<OpenFile?>, fd: int): (r: Option<OpenFile>)
    requires |ofile| == NOFILE
    ensures r.Some? <==> 0 <= fd < NOFILE && ofile[fd] != null
    ensures r.Some? ==> r.value == ofile[fd]
  {
    if 0 <= fd < NOFILE && ofile[fd] != null then Some(ofile[fd]) else None
  }

  /** The lowest-numbered empty slot of `ofile`. */
  function FirstFree(ofile: seq<OpenFile?>): (k: Option<nat>)
    ensures k.None? <==> forall j :: 0 <= j < |ofile| ==> ofile[j] != null
    ensures k.Some? ==> k.value < |ofile| && ofile[k.value] == null
                        && forall j :: 0 <= j < k.value ==> ofile[j] != null
  {
    if ofile == [] then None
    else if ofile[0] == null then Some(0)
    else match FirstFree(ofile[1..])
      case None => None
      case Some(k) => Some(k + 1)
  }

  /**
   * A descriptor `fdalloc` hands out names the file it was given, and
   * every other descriptor still names what it named before.
   */
  lemma FdAllocThenArgFd(ofile: seq<OpenFile?>, f: OpenFile, fd: int)
    requires |ofile| == NOFILE && FirstFree(ofile).Some?
    ensures var k := FirstFree(ofile).value;
            && ArgFd(ofile, k).None?
            && ArgFd(ofile[k := f], k) == Some(f)
            && (fd != k ==> ArgFd(ofile[k := f], fd) == ArgFd(ofile, fd))
  {
  }

  // ---------------------------------------------------------------------------
  // The VMA table
  // ---------------------------------------------------------------------------

  /** A `struct vma`: one mapped file region of the process. */
  datatype Vma = Vma(valid: bool, addr: Word, len: int, prot: bv32, flags: bv32, offset: int, vfile: OpenFile?)

  /** The unused slot. */
  const EMPTY_VMA := Vma(false, 0, 0, 0, 0, 0, null)

  /** `va` lies in the region of a valid `v`: `addr <= va < addr + len`, the sum in `uint64`. */
  predicate Contains(v: Vma, va: Word)
  {
    v.valid && v.addr <= va && va < (v.addr + v.len) % U64
  }

  /** The first slot whose region contains `va`. */
  function FirstVma(vmas: seq<Vma>, va: Word): (k: Option<nat>)
    ensures k.None? <==> forall j :: 0 <= j < |vmas| ==> !Contains(vmas[j], va)
    ensures k.Some? ==> k.value < |vmas| && Contains(vmas[k.value], va)
                        && forall j :: 0 <= j < k.value ==> !Contains(vmas[j], va)
  {
    if vmas == [] then None
    else if Contains(vmas[0], va) then Some(0)
    else match FirstVma(vmas[1..], va)
      case None => None
      case Some(k) => Some(k + 1)
  }

  /** The first unused slot. */
  function FirstInvalid(vmas: seq<Vma>): (k: Option<nat>)
    ensures k.None? <==> forall j :: 0 <= j < |vmas| ==> vmas[j].valid
    ensures k.Some? ==> k.value < |vmas| && !vmas[k.value].valid
                        && forall j :: 0 <= j < k.value ==> vmas[j].valid
  {
    if vmas == [] then None
    else if !vmas[0].valid then Some(0)
    else match FirstInvalid(vmas[1..])
      case None => None
      case Some(k) => Some(k + 1)
  }

  // ---------------------------------------------------------------------------
  // sys_mmap
  // ---------------------------------------------------------------------------

  /**
   * The argument checks of `sys_mmap` once the file is known: a hint
   * address, an offset or a negative length is refused, and so is reading
   * an unreadable file or writing an unwritable one through a shared
   * mapping.
   */
  predicate MmapRejected(addr: Word, len: int, prot: bv32, flags: bv32, offset: int, f: Access)
  {
    || addr != 0 || offset != 0 || len < 0
    || (!f.readable && prot & PROT_READ != 0)
    || (!f.writable && prot & PROT_WRITE != 0 && flags & MAP_PRIVATE == 0)
  }

  /** A file opened write-only cannot be mapped for reading. */
  lemma WriteOnlyCannotMapRead(len: int, prot: bv32, flags: bv32)
    requires prot & PROT_READ != 0
    ensures MmapRejected(0, len, prot, flags, 0, OpenAccess(O_WRONLY))
  {
  }

  /**
   * A read-only file can be mapped writable only privately: a shared
   * writable mapping is refused, a private one accepted.
   */
  lemma ReadOnlyWritableOnlyPrivate(len: nat)
    ensures MmapRejected(0, len, PROT_READ | PROT_WRITE, MAP_SHARED, 0, OpenAccess(O_RDONLY))
    ensures !MmapRejected(0, len, PROT_READ | PROT_WRITE, MAP_PRIVATE, 0, OpenAccess(O_RDONLY))
  {
  }

  /**
   * The placement loop of `sys_mmap`: starting from `end`, every valid
   * VMA starting below the running end lowers it to that VMA's page.
   */
  function Placement(vmas: seq<Vma>, end: Word): (p: Word)
    ensures p <= end
  {
    if vmas == [] then end
    else Placement(vmas[1..], if vmas[0].valid && vmas[0].addr < end then PgRoundDown(vmas[0].addr) else end)
  }

  lemma RoundDownAbove(a: Word, e: Word)
    requires e % PGSIZE == 0 && e <= a
    ensures e <= PgRoundDown(a)
  {
    var q, m := a / PGSIZE, e / PGSIZE;
    assert a == q * PGSIZE + a % PGSIZE && e == m * PGSIZE;
    assert m * PGSIZE < (q + 1) * PGSIZE;
  }

  /**
   * From a page-aligned start, the placement loop computes the minimum of
   * `end` and the pages of all valid VMAs: it is page-aligned, at or below
   * each of them, and equal to one of them or to `end`.
   */
  lemma {:induction false} PlacementIsMin(vmas: seq<Vma>, end: Word)
    requires end % PGSIZE == 0
    ensures var p := Placement(vmas, end);
            && p % PGSIZE == 0
            && (forall k :: 0 <= k < |vmas| && vmas[k].valid ==> p <= PgRoundDown(vmas[k].addr))
            && (p == end || exists k :: 0 <= k < |vmas| && vmas[k].valid && p == PgRoundDown(vmas[k].addr))
  {
    if vmas != [] {
      var v := vmas[0];
      var e := if v.valid && v.addr < end then PgRoundDown(v.addr) else end;
      if v.valid && v.addr >= end {
        RoundDownAbove(v.addr, end);
      }
      PlacementIsMin(vmas[1..], e);
      var p := Placement(vmas, end);
      assert p == Placement(vmas[1..], e);
      forall k | 0 <= k < |vmas| && vmas[k].valid ensures p <= PgRoundDown(vmas[k].addr) {
        if k > 0 {
          assert vmas[k] == vmas[1..][k - 1];
        }
      }
      if p != end && p != e {
        var k :| 0 <= k < |vmas[1..]| && vmas[1..][k].valid && p == PgRoundDown(vmas[1..][k].addr);
        assert vmas[k + 1] == vmas[1..][k];
      }
    }
  }

  /** Where `sys_mmap` places a mapping of `len` bytes: below the placement end, in `uint64`. */
  function MmapAddr(vmas: seq<Vma>, len: int): (a: Word)
  {
    (Placement(vmas, MMAPEND) - PgRoundUp(len)) % U64
  }

  /**
   * A new mapping that fits below the placement end is page-aligned and
   * ends at or below the start of every existing mapping, so it overlaps
   * none of them.
   */
  lemma MmapBelowExisting(vmas: seq<Vma>, len: nat)
    requires PgRoundUp(len) <= Placement(vmas, MMAPEND)
    ensures var a := MmapAddr(vmas, len);
            && a % PGSIZE == 0
            && a + PgRoundUp(len) <= MMAPEND
            && forall k :: 0 <= k < |vmas| && vmas[k].valid ==> a + PgRoundUp(len) <= vmas[k].addr
  {
    PlacementIsMin(vmas, MMAPEND);
    var p := Placement(vmas, MMAPEND);
    var n := PgRoundUp(len);
    assert n % PGSIZE == 0;
    assert MmapAddr(vmas, len) == p - n;
  }

  /** The slot `sys_mmap` fills. */
  function NewVma(vmas: seq<Vma>, len: int, prot: bv32, flags: bv32, offset: int, f: OpenFile): Vma
  {
    Vma(true, MmapAddr(vmas, len), PgRoundUp(len), prot, flags, offset, f)
  }

  // ---------------------------------------------------------------------------
  // sys_munmap
  // ---------------------------------------------------------------------------

  /** `munmap` refuses a range strictly inside `v`: the VMA would need two pieces. */
  predicate PunchesHole(v: Vma, addr: Word, len: Word)
  {
    addr > v.addr && (addr + len) % U64 < (v.addr + v.len) % U64
  }

  /** PGROUNDUP on a `uint64`: the round-up wraps to 0 past the last page. */
  function RoundUp64(a: Word): (r: Word)
    ensures r % PGSIZE == 0
    ensures a + PGSIZE <= U64 ==> r == PgRoundUp(a)
  {
    PgRoundUp(a) % U64
  }

  /** The range `sys_munmap` hands to `vmaunmap`: its first address and byte count. */
  datatype UnmapRange = UnmapRange(start: Word, count: nat)

  /**
   * The aligned start is `addr` itself when the range starts at the VMA's
   * start, else `addr` rounded up to a page; the count is what is left of
   * `len` past that start, never negative.
   */
  function UnmapPages(v: Vma, addr: Word, len: Word): (r: UnmapRange)
  {
    var start := if addr > v.addr then RoundUp64(addr) else addr;
    var n := len - (start - addr);
    UnmapRange(start, if n < 0 then 0 else n)
  }

  /**
   * Without wrap-around, the range handed to `vmaunmap` starts at or after
   * `addr` (on a page boundary unless it is the VMA's start) and, when not
   * empty, ends exactly where the requested range ends.
   */
  lemma UnmapPagesRange(v: Vma, addr: Word, len: Word)
    requires addr + PGSIZE <= U64
    ensures var r := UnmapPages(v, addr, len);
            && addr <= r.start < addr + PGSIZE
            && (addr > v.addr ==> r.start % PGSIZE == 0)
            && (r.count > 0 ==> r.start + r.count == addr + len)
            && r.count <= len
  {
  }

  /**
   * The VMA left by `sys_munmap` as written: a range starting at or before
   * the VMA's start moves the start past it (and the file offset with
   * it); `len` goes down by the requested length in every case; a VMA
   * left with no length is dropped.
   */
  function TrimAsWritten(v: Vma, addr: Word, len: Word): Vma
  {
    var front := addr <= v.addr && (addr + len) % U64 > v.addr;
    var v1 := if front then v.(offset := v.offset + ((addr + len) % U64 - v.addr), addr := (addr + len) % U64) else v;
    var v2 := v1.(len := v1.len - len);
    if v2.len <= 0 then v2.(valid := false) else v2
  }

  /** A VMA whose region runs from address `lo` to `hi`. */
  predicate Spans(v: Vma, lo: int, hi: int)
  {
    v.valid && v.addr == lo && v.addr + v.len == hi
  }

  /**
   * Unmapping the tail of a VMA with a range that runs past its end drops
   * the whole VMA: [0x1000, 0x3000) unmapped from 0x2000 for 0x2000 bytes
   * loses [0x1000, 0x2000) too.
   */
  lemma TailOvershootDropsHead()
    ensures var v := Vma(true, 0x1000, 0x2000, PROT_READ, MAP_SHARED, 0, null);
            && Contains(v, 0x2000) && !PunchesHole(v, 0x2000, 0x2000)
            && Contains(v, 0x1000)
            && !TrimAsWritten(v, 0x2000, 0x2000).valid
  {
  }

  /**
   * The VMA `sys_munmap` leaves: as written, except that unmapping the tail
   * keeps the part below `addr` however far the range runs past the end.
   */
  function Trim(v: Vma, addr: Word, len: Word): Vma
  {
    var front := addr <= v.addr && (addr + len) % U64 > v.addr;
    var v1 := if front then v.(offset := v.offset + ((addr + len) % U64 - v.addr), addr := (addr + len) % U64) else v;
    var v2 := v1.(len := if addr > v.addr then addr - v.addr else v1.len - len);
    if v2.len <= 0 then v2.(valid := false) else v2
  }

  /**
   * Without wrap-around, `munmap` of a range that starts inside `v` and
   * does not punch a hole leaves exactly the addresses of `v` outside the
   * range: trimming the front keeps the end and moves the file offset
   * along, trimming the tail keeps the start.
   */
  lemma TrimRemovesRange(v: Vma, addr: Word, len: Word, x: Word)
    requires Contains(v, addr) && !PunchesHole(v, addr, len) && len > 0
    requires 0 < v.len && v.addr + v.len < U64 && addr + len < U64
    ensures var t := Trim(v, addr, len);
            Contains(t, x) <==> Contains(v, x) && !(addr <= x < addr + len)
    ensures var t := Trim(v, addr, len);
            t.valid && addr == v.addr ==> t.offset == v.offset + len && Spans(t, addr + len, v.addr + v.len)
    ensures var t := Trim(v, addr, len);
            t.valid && addr > v.addr ==> t.offset == v.offset && Spans(t, v.addr, addr)
  {
  }

  /**
   * Without wrap-around, the trim as written agrees with the corrected one
   * unless a tail range runs past the end of the VMA, so for every other range
   * `TrimRemovesRange` describes what `sys_munmap` does.
   */
  lemma TrimAsWrittenAgrees(v: Vma, addr: Word, len: Word)
    requires Contains(v, addr) && !PunchesHole(v, addr, len)
    requires v.addr + v.len < U64 && addr + len < U64
    requires addr == v.addr || addr + len <= v.addr + v.len
    ensures TrimAsWritten(v, addr, len) == Trim(v, addr, len)
  {
  }

  /**
   * Without wrap-around, a tail range that runs past the end of the VMA
   * makes the trim as written shrink the VMA by the whole requested length,
   * so it loses addresses below `addr` that the range does not cover (the
   * byte just below `addr`, at least), while the corrected trim keeps the
   * part from the VMA's start up to `addr`.
   */
  lemma TrimAsWrittenOvershoot(v: Vma, addr: Word, len: Word)
    requires Contains(v, addr) && addr > v.addr
    requires v.addr + v.len < U64 && addr + len < U64
    requires addr + len > v.addr + v.len
    ensures Contains(v, addr - 1) && !Contains(TrimAsWritten(v, addr, len), addr - 1)
    ensures Spans(Trim(v, addr, len), v.addr, addr)
  {
  }

  // ---------------------------------------------------------------------------
  // Permissions of a lazily mapped page
  // ---------------------------------------------------------------------------

  /**
   * The PTE permission bits `vmatraylazy_touch` maps a page of a VMA with:
   * always user-accessible, readable, writable and executable exactly as
   * `prot` allows, never the valid bit or any other.
   */
  function PtePerm(prot: bv32): (perm: bv32)
    ensures perm & PTE_U != 0
    ensures perm & PTE_R != 0 <==> prot & PROT_READ != 0
    ensures perm & PTE_W != 0 <==> prot & PROT_WRITE != 0
    ensures perm & PTE_X != 0 <==> prot & PROT_EXEC != 0
    ensures perm & !(PTE_R | PTE_W | PTE_X | PTE_U) == 0
  {
    var r := PTE_U;
    var r := if prot & PROT_READ != 0 then r | PTE_R else r;
    var r := if prot & PROT_WRITE != 0 then r | PTE_W else r;
    if prot & PROT_EXEC != 0 then r | PTE_X else r
  }

  // ---------------------------------------------------------------------------
  // The process tables
  // ---------------------------------------------------------------------------

  /** The part of `struct proc` these calls use: `ofile[]` and `vmas[]`. */
  class Proc {
    var ofile: array<OpenFile?>
    var vmas: array<Vma>

    ghost predicate Valid()
      reads this
    {
      ofile.Length == NOFILE && vmas.Length == MAXVMANUM
    }

    constructor ()
      ensures Valid() && fresh(ofile) && fresh(vmas)
      ensures forall k :: 0 <= k < NOFILE ==> ofile[k] == null
      ensures forall k :: 0 <= k < MAXVMANUM ==> vmas[k] == EMPTY_VMA
    {
      ofile := new OpenFile?[NOFILE](_ => null);
      vmas := new Vma[MAXVMANUM](_ => EMPTY_VMA);
    }

    /**
     * `fdalloc(f)`: store `f` in the lowest-numbered empty slot and return
     * its index; -1 with nothing changed when every slot is in use.
     */
    method FdAlloc(f: OpenFile) returns (fd: int)
      requires Valid()
      modifies ofile
      ensures var k := FirstFree(old(ofile[..]));
              && (k.None? ==> fd == -1 && ofile[..] == old(ofile[..]))
              && (k.Some? ==> fd == k.value && ofile[..] == old(ofile[..])[fd := f])
    {
      fd := 0;
      while fd < NOFILE
        invariant 0 <= fd <= NOFILE && ofile[..] == old(ofile[..])
        invariant forall j :: 0 <= j < fd ==> ofile[j] != null
      {
        if ofile[fd] == null {
          ofile[fd] := f;
          return;
        }
        fd := fd + 1;
      }
      return -1;
    }

    /** `findvma(va)`: the first slot whose region contains `va`, if any. */
    method FindVma(va: Word) returns (k: Option<nat>)
      ensures k == FirstVma(vmas[..], va)
    {
      var i := 0;
      while i < vmas.Length
        invariant 0 <= i <= vmas.Length
        invariant forall j :: 0 <= j < i ==> !Contains(vmas[j], va)
      {
        var v := vmas[i];
        if v.valid && va >= v.addr && va < (v.addr + v.len) % U64 {
          return Some(i);
        }
        i := i + 1;
      }
      return None;
    }

    /**
     * `sys_mmap(addr, len, prot, flags, fd, offset)`: refused (all-ones,
     * nothing changed) when `fd` names no open file or the arguments do not
     * pass the checks; otherwise the first unused slot becomes a VMA of
     * `PGROUNDUP(len)` bytes placed below every existing mapping, and its
     * address is returned.  With no unused slot the kernel panics, here
     * `panicked` with nothing changed.
     */
    method Mmap(addr: Word, len: int, prot: bv32, flags: bv32, fd: int, offset: int)
      returns (r: Word, panicked: bool)
      requires Valid()
      modifies vmas
      ensures var f := ArgFd(old(ofile[..]), fd);
              var rejected := f.None? || MmapRejected(addr, len, prot, flags, offset,
                                                      Access(f.value.readable, f.value.writable));
              var k := FirstInvalid(old(vmas[..]));
              && (rejected ==> r == MMAP_ERR && !panicked && vmas[..] == old(vmas[..]))
              && (!rejected && k.None? ==> panicked && vmas[..] == old(vmas[..]))
              && (!rejected && k.Some? ==>
                    && !panicked && r == MmapAddr(old(vmas[..]), len)
                    && vmas[..] == old(vmas[..])[k.value := NewVma(old(vmas[..]), len, prot, flags, offset, f.value)])
    {
      var file := ArgFd(ofile[..], fd);
      if file.None? {
        return MMAP_ERR, false;
      }
      var f := file.value;
      if addr != 0 || offset != 0 || len < 0 {
        return MMAP_ERR, false;
      }
      if (!f.readable && prot & PROT_READ != 0) ||
         (!f.writable && prot & PROT_WRITE != 0 && flags & MAP_PRIVATE == 0) {
        return MMAP_ERR, false;
      }
      var size := PgRoundUp(len);
      var v, end := ClaimSlot();
      if v == -1 {
        return MMAP_ERR, true;
      }
      var a := (end - size) % U64;
      vmas[v] := Vma(true, a, size, prot, flags, offset, f);
      return a, false;
    }

    /**
     * The slot loop of `sys_mmap`: mark the first unused slot in use and
     * return it (-1 if there is none) together with the placement end over
     * the VMAs in use.
     */
    method ClaimSlot() returns (v: int, end: Word)
      modifies vmas
      ensures end == Placement(old(vmas[..]), MMAPEND)
      ensures var k := FirstInvalid(old(vmas[..]));
              && (k.None? ==> v == -1 && vmas[..] == old(vmas[..]))
              && (k.Some? ==> v == k.value && vmas[..] == old(vmas[..])[v := old(vmas[v]).(valid := true)])
    {
      ghost var vs := vmas[..];
      v := -1;
      end := MMAPEND;
      var i := 0;
      while i < vmas.Length
        invariant 0 <= i <= vmas.Length
        invariant Placement(vs[i..], end) == Placement(vs, MMAPEND)
        invariant v == -1 ==> vmas[..] == vs && forall j :: 0 <= j < i ==> vs[j].valid
        invariant v != -1 ==> 0 <= v < i && FirstInvalid(vs) == Some(v)
                              && vmas[..] == vs[v := vs[v].(valid := true)]
      {
        var vv := vmas[i];
        assert vs[i..][1..] == vs[i + 1..];
        if !vv.valid {
          if v == -1 {
            v := i;
            vmas[i] := vv.(valid := true);
          }
        } else if vv.addr < end {
          end := PgRoundDown(vv.addr);
        }
        i := i + 1;
      }
    }

    /**
     * `sys_munmap(addr, len)`: -1 with nothing changed for an empty range,
     * an address no VMA contains, or a range strictly inside a VMA;
     * otherwise 0, the VMA containing `addr` trimmed as `TrimAsWritten`
     * says (its length always drops by `len`), and
     * `unmapped` the range handed to `vmaunmap`.
     */
    method Munmap(addr: Word, len: Word) returns (r: int, unmapped: Option<UnmapRange>)
      modifies vmas
      ensures var k := FirstVma(old(vmas[..]), addr);
              && (len == 0 || k.None? || PunchesHole(old(vmas[k.value]), addr, len) <==> r == -1)
              && (r == -1 ==> unmapped.None? && vmas[..] == old(vmas[..]))
              && (r != -1 ==> r == 0
                              && unmapped == Some(UnmapPages(old(vmas[k.value]), addr, len))
                              && vmas[..] == old(vmas[..])[k.value := TrimAsWritten(old(vmas[k.value]), addr, len)])
    {
      if len == 0 {
        return -1, None;
      }
      var found := FindVma(addr);
      if found.None? {
        return -1, None;
      }
      var k := found.value;
      var v := vmas[k];
      if addr > v.addr && (addr + len) % U64 < (v.addr + v.len) % U64 {
        return -1, None;
      }
      var tail := addr > v.addr;
      var start := addr;
      if tail {
        start := RoundUp64(addr);
      }
      var count := len - (start - addr);
      if count < 0 {
        count := 0;
      }
      if addr <= v.addr && (addr + len) % U64 > v.addr {
        v := v.(offset := v.offset + ((addr + len) % U64 - v.addr));
        v := v.(addr := (addr + len) % U64);
      }
      v := v.(len := v.len - len);
      if v.len <= 0 {
        v := v.(valid := false);
      }
      vmas[k] := v;
      return 0, Some(UnmapRange(start, count));
    }
  }
}
