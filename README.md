# xv6 kernel allocator, buffer cache, symbol table and mmap bookkeeping in Dafny

This project models five pieces of an xv6 (RISC-V) lab kernel and proves
properties of them.

- **Physical page allocator** (`kalloc.dfy`, module `KAlloc`). Each CPU
  has its own free list of 4096-byte pages, used as a LIFO stack.
  - `kfree` checks the address, fills the page with junk byte 1 and pushes
    it onto the calling CPU's list.
  - `kalloc` pops from the calling CPU's list. When that list is empty, it
    steals one page from the first non-empty list among CPUs `id+1 ..
    NCPU-1`, then `0 .. id-1`, and fills the page with junk byte 5.
  - `kinit`/`freerange` free every whole page between the end of the kernel
    and `PHYSTOP`.
  - The class `Kmem` holds the lists, the junk byte of every touched page
    and a ghost set of free pages. The lemmas prove conservation: an
    allocation removes exactly one page and a free adds exactly one.
  - `kfree` does not check whether a page is already free, so freeing a
    page twice lists it twice. "No page is listed twice" (`Consistent`) is
    therefore kept only as long as no caller frees a page that is free.
- **Buffer cache** (`bio.dfy`, module `BufferCache`). NBUF buffers are
  hashed into 13 buckets by block number. Each bucket's circular list is
  the sequence of buffer indices met from `head.next`.
  - `bget` looks up the bucket of the block. On a miss, it recycles the
    unused buffer with the smallest `lasttime` over all buckets, taking the
    first one in scan order on ties. When the victim lives in another
    bucket, it is moved to the head of the block's bucket; otherwise it
    stays where it is.
  - `bread`, `bwrite`, `brelse`, `bpin` and `bunpin` complete the
    interface. Reference counts are 32-bit and wrap.
- **`find`'s matcher** (`find.dfy`, module `Regex`). `match`, `matchhere`
  and `matchstar` are recursive functions over C strings. They are proved
  to mean what the comments say: unanchored search, `c*` matching any
  run of `c`, `$` anchoring at the end and literal patterns matching
  prefixes.
- **Kernel symbol table** (`symbol.dfy`, module `Symbols`).
  - `readline` is a loop over an array buffer and a file offset.
  - `strtok` is a method of a `Tokenizer` object that holds the static
    cursor. It writes a NUL after each token, in the array.
  - `strtoull` is a loop, proved equal to Horner evaluation of the leading
    hex digits modulo 2^64.
  - `load_symbols` fills `symbols[]`, and `find_symbol` is a linear
    search.
  - A functional reference `LoadFrom` says which entries a file yields.
    `LoadSymbols` is proved to store exactly those.
- **mmap bookkeeping and descriptors** (`sysfile.dfy`, module `SysFile`).
  - The access decoding of `sys_open`, `argfd` and `fdalloc`.
  - The VMA table: `findvma`, `sys_mmap`'s checks, slot choice and
    placement below every existing mapping, and `sys_munmap`'s trimming.
  - The PTE permissions that a lazily faulted page is mapped with.
  - The class `Proc` holds `ofile[]` and `vmas[]` as arrays.

`common.dfy` holds `Option`, `Reverse` and `NoDup`.

A hit stamps `lasttime` with the current ticks (bio.c:99).

## Model

| member | source | states |
|---|---|---|
| Common.PgRoundUp | kernel/kalloc.c:76 | PGROUNDUP, where freerange starts and what sys_mmap rounds a length to, is page-aligned and is the least such value at or above its argument |
| KAlloc.PageRangeMembers | kernel/kalloc.c:72-79 | freerange frees a page exactly when it is aligned, at or above PGROUNDUP(start), and ends at or below `end` |
| KAlloc.PageRangeAscending | kernel/kalloc.c:77-78 | freerange frees pages in strictly ascending, non-overlapping order |
| KAlloc.StealOrderRank | kernel/kalloc.c:142-164 | every CPU other than the caller appears in the steal order (id+1 .. NCPU-1, then 0 .. id-1), at its rank |
| KAlloc.StealOrderAt | kernel/kalloc.c:142-164 | every position of the steal order is a CPU other than the caller, and the steal order visits NCPU-1 CPUs |
| KAlloc.FirstNonEmpty | kernel/kalloc.c:142-164 | the steal loops stop at the first CPU in steal order with a non-empty list, all earlier ones being empty; none exists only if all are empty |
| KAlloc.AllocTakesFirstNonEmpty | kernel/kalloc.c:112-174 | kalloc takes the head of its own list when that list is non-empty, otherwise the head of the first non-empty list of another CPU in steal order, and changes only that list |
| KAlloc.AllocZeroIffAllEmpty | kernel/kalloc.c:112-174 | kalloc returns 0 exactly when every CPU's free list is empty |
| KAlloc.AllocConserves | kernel/kalloc.c:112-174 | a successful kalloc removes exactly the returned page, which was free once; the free count drops by one and no page becomes listed twice; a failed one changes nothing |
| KAlloc.PopConserves | kernel/kalloc.c:120-122 | popping one list's head frees that page from the lists and keeps every other page's occurrences |
| KAlloc.FreeConserves | kernel/kalloc.c:100-103 | pushing a page that is not free makes it free exactly once, raises the count by one and changes no other page |
| KAlloc.AllocKeepsFreeSet | kernel/kalloc.c:112-174 | kalloc's page comes from the free set, and the lists afterwards hold exactly the free set without it |
| KAlloc.FreeKeepsFreeSet | kernel/kalloc.c:85-106 | after kfree of a non-free page the lists hold exactly the free set plus that page |
| KAlloc.StealIsFirst | kernel/kalloc.c:142-164 | when the caller's list is empty and every CPU ranked before `c` is empty, kalloc pops from `c` |
| KAlloc.Kmem.constructor | kernel/kalloc.c:55-70 | kinit leaves the boot CPU's list holding every whole page from the kernel end to PHYSTOP, the last freed first, all other lists empty, and each such page filled with junk 1 |
| KAlloc.Kmem.Kfree | kernel/kalloc.c:85-106 | kfree panics, changing nothing, exactly when the address is misaligned, below the kernel end or at or above PHYSTOP; otherwise the page is filled with 1 and pushed on the caller's list only, and free-set consistency is kept |
| KAlloc.Kmem.FreeRange | kernel/kalloc.c:72-79 | freerange pushes every whole page of the range onto the caller's list in ascending order (so the highest is on top), fills each with 1 and adds them to the free set |
| KAlloc.Kmem.Kalloc | kernel/kalloc.c:112-174 | kalloc's page and new lists are those of the reference allocation; the page is filled with 5 and leaves the free set; consistency is kept |
| KAlloc.Kmem.Steal | kernel/kalloc.c:123-164 | with the caller's list empty, the two steal loops take the page the reference allocation takes |
| BufferCache.Hash | kernel/bio.c:36-37 | HASH(blockno) is a bucket index |
| BufferCache.Inc32 | kernel/bio.c:98 | `refcnt++` on a `uint` adds one, wrapping to 0 at 2^32 |
| BufferCache.Dec32 | kernel/bio.c:223 | `refcnt--` on a `uint` subtracts one, wrapping to 2^32-1 at 0 |
| BufferCache.InitBucket | kernel/bio.c:58-78 | after binit, bucket i holds exactly the buffers b < NBUF with b mod 13 = i, newest first |
| BufferCache.FirstMatch | kernel/bio.c:96-105 | the lookup finds a buffer exactly when some buffer of the bucket holds (dev, blockno), and what it finds is in the bucket and holds the block |
| BufferCache.Concat | kernel/bio.c:136-146 | the victim scan visits exactly the buffers of all buckets |
| BufferCache.LruUnique | kernel/bio.c:136-154 | the victim of the scan is unique: scan order breaks ties |
| BufferCache.ScanStep | kernel/bio.c:140-146 | one step of the scan keeps the running victim the LRU unused buffer so far, and the "none yet" state exact |
| BufferCache.Without | kernel/bio.c:162-163 | unlinking a buffer removes it and nothing else from its bucket and keeps the list duplicate-free |
| BufferCache.BCache.constructor | kernel/bio.c:52-82 | binit places buffer b at bucket b mod 13 with zeroed fields, and every buffer lies in exactly one bucket |
| BufferCache.BCache.CachedIsHit | kernel/bio.c:96-105 | a buffer with valid contents for (dev, blockno) is always found by the lookup in HASH(blockno) |
| BufferCache.BCache.Lookup | kernel/bio.c:96-105 | the lookup loop returns the buffer the reference lookup picks, so a holder of the block if the bucket has one, else none |
| BufferCache.BCache.FindVictim | kernel/bio.c:134-157 | the scan yields -1 exactly when no buffer is unused; otherwise the LRU unused buffer in scan order and the bucket it lives in |
| BufferCache.BCache.ScanBucket | kernel/bio.c:138-153 | scanning one more bucket extends the LRU result from the buckets before it to that bucket |
| BufferCache.BCache.MoveToHead | kernel/bio.c:160-171 | moving the victim unlinks it from its old bucket and puts it at the head of the new one; other buckets stay as they were and every buffer is still in exactly one bucket |
| BufferCache.BCache.Bget | kernel/bio.c:87-182 | a hit bumps the reference count, stamps ticks and locks the first matching buffer, changing nothing else; a miss recycles as `Recycle` states; the result holds the block, is locked and lies in the block's bucket |
| BufferCache.BCache.Recycle | kernel/bio.c:134-181 | the miss path panics exactly when no buffer is unused; otherwise it retags the LRU victim with the block, one reference and invalid contents, moves it to the block's bucket, and changes no other buffer |
| BufferCache.BCache.Bread | kernel/bio.c:188-199 | bread panics exactly when the block is not cached and no buffer is unused; on a hit it takes a reference to the first matching buffer, stamps ticks, locks it and marks its contents valid, changing nothing else; on a miss it recycles as bget does but leaves the contents valid |
| BufferCache.BCache.Bwrite | kernel/bio.c:202-208 | bwrite panics exactly when the buffer is not locked |
| BufferCache.BCache.Brelse | kernel/bio.c:212-229 | brelse panics, changing nothing, when the buffer is not locked; otherwise it unlocks it, drops one reference and stamps ticks only when the count reaches 0 |
| BufferCache.BCache.Bpin | kernel/bio.c:231-237 | bpin adds one reference to that buffer and changes nothing else |
| BufferCache.BCache.Bunpin | kernel/bio.c:239-245 | bunpin drops one reference from that buffer and changes nothing else |
| Regex.At | user/find.c:26-32 | reading a C string yields NUL exactly past its last character |
| Regex.MatchFromMeaning | user/find.c:16-19 | the do-while of `match` succeeds exactly when `matchhere` succeeds at some suffix of the text, the empty one included |
| Regex.Match | user/find.c:11-21 | a `^` pattern matches exactly when the rest matches at the start; any other pattern matches exactly when it matches at some position |
| Regex.EmptyMatchesAll | user/find.c:14-27 | the empty pattern and `^` alone match every text |
| Regex.StarMeaning | user/find.c:37-45 | `c*re` matches exactly when `re` matches after some prefix made only of `c` (any characters for `.`) |
| Regex.PlainMatchesPrefix | user/find.c:24-35 | a pattern without `*` and without a final `$` matches at the start exactly when the text begins with a string it matches character by character |
| Regex.DollarMatchesEnd | user/find.c:30-33 | a `*`-free pattern followed by `$` matches exactly the texts it matches character by character in full |
| Regex.MatchAtStart | user/find.c:11-21 | an unanchored pattern that matches at the start is found by `match` |
| Symbols.ScanLineConsumed | kernel/symbol.c:17-30 | readline stores at most `max-1` characters and consumes the stored ones plus the newline if it read one, never past the end of the file |
| Symbols.ScanLineShape | kernel/symbol.c:17-30 | the stored line is the file's characters from the offset, without newlines; it ends at a newline (consumed), at the end of data or when the room is full |
| Symbols.File.constructor | kernel/symbol.c:97-98 | load_symbols reads `kernel.sym` from offset 0 |
| Symbols.ReadLine | kernel/symbol.c:17-30 | the buffer holds the line described by readline's reference, NUL-terminated, the offset advances by what was consumed, and the buffer past the NUL is untouched |
| Symbols.FirstNulSpec | kernel/symbol.c:37-47 | the end of a C string is its first NUL at or after the start |
| Symbols.CStrAt | kernel/symbol.c:54 | the C string at an index is a slice of the buffer |
| Symbols.SkipDelimsSpec | kernel/symbol.c:41 | the first loop of strtok stops at the first character that is NUL or not a delimiter |
| Symbols.SkipTokenSpec | kernel/symbol.c:47 | the second loop of strtok stops at the first NUL or delimiter |
| Symbols.StrtokStep | kernel/symbol.c:33-55 | one strtok call keeps the buffer length, moves the cursor forward and starts any token at or after the old cursor |
| Symbols.StrtokTerminated | kernel/symbol.c:49-52 | after strtok the cursor still points into a NUL-terminated string |
| Symbols.StrtokToken | kernel/symbol.c:33-55 | strtok returns NULL exactly when the rest of the string is only delimiters, leaving the buffer as it was and the cursor on the NUL; otherwise the token is the first run of non-delimiters after the skipped delimiters and is maximal: a delimiter after it is overwritten with NUL and the cursor resumes just past it, while at the string's end the buffer is untouched and the cursor stays |
| Symbols.CStrStable | kernel/symbol.c:49-51 | writing the NUL after a later token leaves an earlier returned token unchanged |
| Symbols.TokensPair | kernel/symbol.c:103-105 | the line has at least two tokens exactly when both strtok calls of load_symbols return a token, and those are the first two |
| Symbols.TokensShape | kernel/symbol.c:33-55 | every token strtok yields is non-empty and free of delimiters and NULs |
| Symbols.StrtokAgree | kernel/symbol.c:33-55 | strtok depends only on the buffer up to the terminating NUL |
| Symbols.CStrAgree | kernel/symbol.c:33-55 | a C string depends only on the buffer up to its NUL |
| Symbols.ScanDelims | kernel/symbol.c:41 | the delimiter-skipping loop ends where its reference says, inside the buffer |
| Symbols.ScanToken | kernel/symbol.c:47 | the token-scanning loop ends where its reference says, inside the buffer |
| Symbols.Tokenizer.constructor | kernel/symbol.c:34 | the static cursor starts out NULL |
| Symbols.Tokenizer.Strtok | kernel/symbol.c:33-55 | a non-NULL argument restarts the cursor; with no buffer yet the result is NULL; otherwise token, buffer and cursor are those of one strtok step |
| Symbols.HexValue | kernel/symbol.c:63-68 | a digit's value is below 16 |
| Symbols.HexPrefix | kernel/symbol.c:59-70 | strtoull reads the longest prefix of hex digits, stopping at the first other character |
| Symbols.Horner | kernel/symbol.c:72 | the accumulated value is a `uint64` |
| Symbols.ParseHex | kernel/symbol.c:57-75 | the result of strtoull is a `uint64` |
| Symbols.StrToUll | kernel/symbol.c:57-75 | the loop computes the reference value of strtoull |
| Symbols.ParseHexIsHorner | kernel/symbol.c:57-75 | strtoull is the Horner value in the given base of the leading hex digits, modulo 2^64 |
| Symbols.ParseHexHorner | kernel/symbol.c:57-75 | continuing the scan from an accumulated prefix gives the Horner value of the whole digit run |
| Symbols.ParseHexStops | kernel/symbol.c:69-70 | characters after the first non-digit do not affect the value |
| Symbols.NoHexPrefix | kernel/symbol.c:57-75 | a `0x` prefix is not skipped: "0x1f" reads as 0 |
| Symbols.BaseNotChecked | kernel/symbol.c:63-72 | digits are not checked against the base: "9" in base 8 reads as 9 |
| Symbols.ValueWraps | kernel/symbol.c:72 | the value wraps modulo 2^64 |
| Symbols.Truncate | kernel/symbol.c:107-108 | strncpy plus the forced NUL keeps exactly the first MAX_NAME_LEN-1 characters of a longer name, and all of a shorter one |
| Symbols.EntryName | kernel/symbol.c:105-108 | an entry is made exactly when there are two tokens; its address is the Horner value of the first token's leading hex digits, its name the first MAX_NAME_LEN-1 characters of the second token; from well-formed tokens the name is non-empty, blank-free and fits the field |
| Symbols.ParseLineFields | kernel/symbol.c:102-108 | a line yields an entry exactly when it has two blank-separated tokens; the name is the first MAX_NAME_LEN-1 characters of the second token (all of a shorter one) and the address the Horner value of the first token's leading hex digits |
| Symbols.ParseLineName | kernel/symbol.c:102-110 | every entry made from a line has a non-empty, blank-free name that fits the name field and a `uint64` address |
| Symbols.LoadFromBounds | kernel/symbol.c:101-111 | load_symbols stores at most MAX_SYMBOLS entries, each with a well-formed name |
| Symbols.FirstAddr | kernel/symbol.c:121-124 | the first index holding the address, if any |
| Symbols.ParseEntry | kernel/symbol.c:103-110 | the two strtok calls and the copying build the entry the reference parse gives for the line in the buffer |
| Symbols.SymbolTable.constructor | kernel/symbol.c:81-82 | the table starts empty |
| Symbols.SymbolTable.LoadSymbols | kernel/symbol.c:84-116 | without the file nothing changes; otherwise the first `symbol_count` entries are exactly the entries the file yields and the rest are untouched |
| Symbols.SymbolTable.LoadLine | kernel/symbol.c:102-111 | one round keeps "stored so far plus still to come" equal to what the file yields |
| Symbols.SymbolTable.FindSymbol | kernel/symbol.c:120-126 | the name of the first stored entry with the address, or "<unknown>" when none has it |
| SysFile.PgRoundDown | kernel/sysfile.c:553 | PGROUNDDOWN gives the aligned address of the page holding `a` |
| SysFile.OpenAccess | kernel/sysfile.c:341-342 | O_RDONLY opens read-only, O_WRONLY write-only, O_RDWR both, both bits write-only; the file is always readable or writable |
| SysFile.OpenIgnoresOtherFlags | kernel/sysfile.c:341-342 | flags other than the two access bits (O_CREATE, O_TRUNC) do not change the access |
| SysFile.OpenFile.Open | kernel/sysfile.c:341-342 | an opened file's readable and writable fields are the decoded access |
| SysFile.ArgFd | kernel/sysfile.c:21-36 | argfd succeeds exactly when the descriptor is in range and its slot holds a file, and returns that file |
| SysFile.FirstFree | kernel/sysfile.c:46-52 | the lowest empty descriptor slot; none only when every slot is in use |
| SysFile.FdAllocThenArgFd | kernel/sysfile.c:40-53 | the descriptor fdalloc hands out was free and now names the file; every other descriptor names what it did before |
| SysFile.FirstVma | kernel/sysfile.c:491-502 | findvma returns the first in-use VMA whose range contains the address; none only when none does |
| SysFile.FirstInvalid | kernel/sysfile.c:545-551 | the slot sys_mmap claims is the first unused one; none only when all are in use |
| SysFile.WriteOnlyCannotMapRead | kernel/sysfile.c:533-536 | a write-only file cannot be mapped with PROT_READ |
| SysFile.ReadOnlyWritableOnlyPrivate | kernel/sysfile.c:533-536 | a read-only file can be mapped writable with MAP_PRIVATE but not with MAP_SHARED |
| SysFile.Placement | kernel/sysfile.c:543-555 | the placement end never rises above its start |
| SysFile.PlacementIsMin | kernel/sysfile.c:543-555 | the placement end is page-aligned, at or below the page of every in-use VMA, and equal to one of them or to MMAPEND |
| SysFile.MmapBelowExisting | kernel/sysfile.c:539-560 | a mapping that fits is page-aligned and ends at or below MMAPEND and below every existing mapping, so it overlaps none |
| SysFile.RoundUp64 | kernel/sysfile.c:593 | PGROUNDUP on a `uint64` is page-aligned |
| SysFile.UnmapPagesRange | kernel/sysfile.c:591-598 | without wrap-around, the range handed to vmaunmap starts within a page of `addr`, on a page boundary unless it is the VMA's start, and when non-empty ends where the request ends |
| SysFile.TailOvershootDropsHead | kernel/sysfile.c:601-610 | as written, unmapping a VMA's tail with a range past its end invalidates the whole VMA, though its head was not in the range |
| SysFile.TrimAsWrittenAgrees | kernel/sysfile.c:601-610 | without wrap-around, munmap as written trims exactly as the corrected trim does unless a tail range runs past the VMA's end |
| SysFile.TrimAsWrittenOvershoot | kernel/sysfile.c:601-610 | without wrap-around, a tail range past the VMA's end makes munmap as written lose addresses below `addr` that the range does not cover (the byte at `addr - 1` at least), where the corrected trim keeps the VMA from its start up to `addr` |
| SysFile.TrimRemovesRange | kernel/sysfile.c:601-610 | without wrap-around, the trimmed VMA contains exactly the old VMA's addresses outside the range; a front trim moves the start and the file offset by `len`, a tail trim keeps start and offset |
| SysFile.PtePerm | kernel/sysfile.c:691-694 | the page is always user-accessible, readable, writable and executable exactly when `prot` allows it, and gets no other bit |
| SysFile.Proc.FdAlloc | kernel/sysfile.c:40-53 | fdalloc stores the file in the lowest empty slot and returns it, or returns -1 with the table unchanged |
| SysFile.Proc.FindVma | kernel/sysfile.c:491-502 | the loop returns the first VMA containing the address |
| SysFile.Proc.Mmap | kernel/sysfile.c:516-570 | a bad descriptor or failed check returns all-ones with nothing changed; no unused slot panics; otherwise the first unused slot becomes a VMA of PGROUNDUP(len) bytes at the placement address, which is returned |
| SysFile.Proc.ClaimSlot | kernel/sysfile.c:541-557 | the slot loop marks the first unused slot in use, or reports none, and computes the placement end |
| SysFile.Proc.Munmap | kernel/sysfile.c:578-613 | an empty length, an uncovered address or a hole returns -1 with nothing changed; otherwise 0 and the range to unmap, the first VMA containing `addr` has its start and offset moved past a front range, its length lowered by `len` in every case, and is dropped when no length is left, as line 605 is written |

## Left out

- Spinlocks, `push_off`/`pop_off`, `cpuid()` and the sleep-lock wait are left out. Every operation is atomic, and the CPU id and `ticks` are arguments. A buffer's sleep lock is a flag.
- Interleavings are left out. As a consequence, bget's second lookup under the allocation lock (bio.c lines 113-125) can never find the block, and it is not modelled.
- Page contents are left out. Only the junk byte a page was last filled with is kept. Buffer data and the disk I/O of `virtio_disk_rw` are also left out.
- Constants from param.h, memlayout.h, riscv.h, fcntl.h and proc.h take the usual xv6 lab values, because those headers are not part of this model: NCPU 8, NBUF 30, NOFILE 16, MAXVMANUM 16, PGSIZE 4096, PHYSTOP = 0x80000000 + 128 MiB, MMAPEND = MAXVA - 2*PGSIZE, and the PROT_, MAP_, PTE_ and O_ bit values.
- `load_symbols`: `namei`, `ilock`, `readi` and the log calls are left out. The file is its contents, or absent when it cannot be opened.
- strtok's static cursor is an explicit `Tokenizer` object.
- `Tokens` lists every token of a line, although load_symbols asks only for the first two.
- System-call argument fetching (`argint`, `argaddr`) is left out: the arguments are parameters.
- The rest of `sys_open` (path lookup, inode creation, truncation, device files) is left out. Only its access decoding is modelled.
- `filedup`, `fileclose`, `vmaunmap`, `readi`, `mappages` and `kalloc` inside `vmatraylazy_touch` are left out. Munmap returns the range it would hand to `vmaunmap`.
- SysFile.Proc.Mmap: does not model the truncation of `PGROUNDUP(len)` back to a 32-bit `int`. A length within a page of 2^31 would wrap there.
- SysFile.Proc.Munmap: does not model the truncation of the `int` fields `len`, `offset` and `nunmap`. Lengths and offsets are unbounded integers.
- SysFile.UnmapPagesRange and SysFile.TrimRemovesRange: assume no address sum wraps past 2^64. The model itself computes those sums modulo 2^64.

## Findings

| source | as written | input that shows it | evidently intended | confidence | as-written member | corrected member |
|---|---|---|---|---|---|---|
| kernel/sysfile.c:605 | `v->len -= len` for every accepted range, including a tail range that runs past the VMA's end | a VMA at 0x1000 of 0x2000 bytes, then munmap(0x2000, 0x2000): the length drops to 0 and the VMA is dropped, although [0x1000, 0x2000) was not in the range | a tail range keeps the part below `addr`: `v->len = addr - v->addr` | medium, not executed | SysFile.TailOvershootDropsHead | SysFile.TrimRemovesRange |
