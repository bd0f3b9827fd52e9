/**
 * The per-CPU physical page allocator of kernel/kalloc.c.
 *
 * Every CPU owns a free list of 4096-byte pages, kept as a LIFO stack whose
 * head is the page handed out next.  A page is named by its physical address.
 * `kfree` pushes onto the calling CPU's list; `kalloc` pops from it and, when
 * it is empty, steals exactly one page from the first non-empty list among
 * CPUs id+1 .. NCPU-1 and then 0 .. id-1.  The locks, `push_off`/`pop_off`
 * and `cpuid()` are left out: every operation is atomic and receives the id
 * of the CPU it runs on.
 */
module KAlloc {
  import opened Common

  const NCPU: nat := 8
  const KERNBASE: nat := 0x8000_0000
  /** Top of the RAM the allocator manages. */
  const PHYSTOP: nat := KERNBASE + 128 * 1024 * 1024
  /** Byte written over a page when it is freed. */
  const FREE_JUNK: int := 1
  /** Byte written over a page when it is allocated. */
  const ALLOC_JUNK: int := 5

  /** The free lists of all CPUs, indexed by CPU id; each list is head first. */
  type FreeLists = seq<seq<nat>>

  /** The check `kfree` makes before it frees `pa`; it panics when this fails. */
  predicate KfreeAccepts(pa: nat, kernelEnd: nat)
  {
    pa % PGSIZE == 0 && kernelEnd <= pa && pa < PHYSTOP
  }

  // ---------------------------------------------------------------------------
  // freerange
  // ---------------------------------------------------------------------------

  /** How many whole pages `freerange` frees between the two addresses. */
  function PageCount(start: nat, end: nat): nat
  {
    if PgRoundUp(start) + PGSIZE <= end then (end - PgRoundUp(start)) / PGSIZE else 0
  }

  /** The pages `freerange(start, end)` frees, in the order it frees them. */
  function PageRange(start: nat, end: nat): (r: seq<nat>)
    ensures |r| == PageCount(start, end)
  {
    seq(PageCount(start, end), k => PgRoundUp(start) + k * PGSIZE)
  }

  /**
   * `freerange` frees exactly the whole pages that start at or above
   * PGROUNDUP(start) and end at or below `end`.
   */
  lemma PageRangeMembers(start: nat, end: nat, p: nat)
    ensures p in PageRange(start, end) <==>
            p % PGSIZE == 0 && PgRoundUp(start) <= p && p + PGSIZE <= end
  {
    var base := PgRoundUp(start);
    if p % PGSIZE == 0 && base <= p && p + PGSIZE <= end {
      var k := (p - base) / PGSIZE;
      assert base + k * PGSIZE == p;
      assert k < PageCount(start, end);
      assert PageRange(start, end)[k] == p;
    }
  }

  /** `freerange` frees the pages in strictly ascending order. */
  lemma PageRangeAscending(start: nat, end: nat, i: nat, j: nat)
    requires i < j < |PageRange(start, end)|
    ensures PageRange(start, end)[i] + PGSIZE <= PageRange(start, end)[j]
  {
  }

  // ---------------------------------------------------------------------------
  // The free pages as a whole
  // ---------------------------------------------------------------------------

  /** How many times page `p` is on a free list, over all CPUs. */
  ghost function Occ(lists: FreeLists, p: nat): nat
  {
    if lists == [] then 0 else multiset(lists[0])[p] + Occ(lists[1..], p)
  }

  /** The number of free pages, over all CPUs. */
  function Total(lists: FreeLists): nat
  {
    if lists == [] then 0 else |lists[0]| + Total(lists[1..])
  }

  /** No page is on two free lists, or twice on one. */
  ghost predicate Distinct(lists: FreeLists)
  {
    forall p :: Occ(lists, p) <= 1
  }

  /**
   * `free` is exactly the set of listed pages and no page is listed twice:
   * the free set is the disjoint union of the free lists.
   */
  ghost predicate FreeSetOf(lists: FreeLists, free: set<nat>)
  {
    forall p :: (p in free <==> Occ(lists, p) == 1) && Occ(lists, p) <= 1
  }

  /** Replacing one CPU's list changes the occurrences of `p` by that list's. */
  lemma {:induction false} OccUpdate(lists: FreeLists, c: nat, s: seq<nat>, p: nat)
    requires c < |lists|
    ensures Occ(lists[c := s], p) + multiset(lists[c])[p] == Occ(lists, p) + multiset(s)[p]
  {
    if c == 0 {
      assert lists[c := s][1..] == lists[1..];
    } else {
      assert lists[c := s][1..] == lists[1..][c - 1 := s];
      OccUpdate(lists[1..], c - 1, s, p);
    }
  }

  /** Replacing one CPU's list changes the free-page count by the difference in length. */
  lemma {:induction false} TotalUpdate(lists: FreeLists, c: nat, s: seq<nat>)
    requires c < |lists|
    ensures Total(lists[c := s]) + |lists[c]| == Total(lists) + |s|
  {
    if c == 0 {
      assert lists[c := s][1..] == lists[1..];
    } else {
      assert lists[c := s][1..] == lists[1..][c - 1 := s];
      TotalUpdate(lists[1..], c - 1, s);
    }
  }

  /** A page on some CPU's list is free. */
  lemma {:induction false} OccHas(lists: FreeLists, c: nat, k: nat)
    requires c < |lists| && k < |lists[c]|
    ensures Occ(lists, lists[c][k]) >= 1
  {
    if c > 0 {
      OccHas(lists[1..], c - 1, k);
    }
  }

  /** When every list is empty no page is free. */
  lemma {:induction false} OccAllEmpty(lists: FreeLists, p: nat)
    requires forall c :: 0 <= c < |lists| ==> lists[c] == []
    ensures Occ(lists, p) == 0 && Total(lists) == 0
  {
    if lists != [] {
      OccAllEmpty(lists[1..], p);
    }
  }

  // ---------------------------------------------------------------------------
  // kalloc as a function of the free lists
  // ---------------------------------------------------------------------------

  /** The CPUs `kalloc` on CPU `id` steals from, in the order it tries them. */
  function StealOrder(id: nat, n: nat): (order: seq<nat>)
    requires id < n
  {
    seq(n - id - 1, k => id + 1 + k) + seq(id, k => k)
  }

  /** The position at which CPU `c` appears in StealOrder(id, n). */
  function StealRank(id: nat, c: nat, n: nat): nat
    requires id < n && c < n && c != id
  {
    if c > id then c - id - 1 else n - id - 1 + c
  }

  /** The steal order lists every other CPU exactly once, CPU `c` at StealRank. */
  lemma StealOrderRank(id: nat, n: nat, c: nat)
    requires id < n && c < n && c != id
    ensures |StealOrder(id, n)| == n - 1
    ensures StealRank(id, c, n) < n - 1 && StealOrder(id, n)[StealRank(id, c, n)] == c
  {
  }

  /** The CPU at position `k` of the steal order is never the caller. */
  lemma StealOrderAt(id: nat, n: nat, k: nat)
    requires id < n && k < n - 1
    ensures |StealOrder(id, n)| == n - 1
    ensures var c := StealOrder(id, n)[k]; c < n && c != id && StealRank(id, c, n) == k
  {
  }

  /** The position in `order` of the first CPU whose list is not empty. */
  function FirstNonEmpty(lists: FreeLists, order: seq<nat>): (k: Option<nat>)
    requires forall j :: 0 <= j < |order| ==> order[j] < |lists|
    ensures k.None? <==> forall j :: 0 <= j < |order| ==> lists[order[j]] == []
    ensures k.Some? ==> k.value < |order| && lists[order[k.value]] != []
    ensures k.Some? ==> forall j :: 0 <= j < k.value ==> lists[order[j]] == []
  {
    if order == [] then None
    else if lists[order[0]] != [] then Some(0)
    else match FirstNonEmpty(lists, order[1..])
      case None => None
      case Some(k) => Some(k + 1)
  }

  /** The page `kalloc` returns (0 for none) and the free lists it leaves. */
  datatype Allocation = Allocation(page: nat, lists: FreeLists)

  /** One page taken off the head of CPU `c`'s list. */
  function PopFrom(lists: FreeLists, c: nat): Allocation
    requires c < |lists| && lists[c] != []
  {
    Allocation(lists[c][0], lists[c := lists[c][1..]])
  }

  /** What `kalloc` does when it runs on CPU `id`. */
  function Alloc(lists: FreeLists, id: nat): Allocation
    requires id < |lists|
  {
    if lists[id] != [] then PopFrom(lists, id)
    else
      var order := StealOrder(id, |lists|);
      match FirstNonEmpty(lists, order)
      case None => Allocation(0, lists)
      case Some(k) => PopFrom(lists, order[k])
  }

  /**
   * `kalloc` takes the head of the caller's own list when it has one and
   * otherwise the head of the first non-empty list in steal order; it removes
   * that one page and changes no other list.
   */
  lemma AllocTakesFirstNonEmpty(lists: FreeLists, id: nat) returns (c: nat)
    requires id < |lists|
    requires exists d :: 0 <= d < |lists| && lists[d] != []
    ensures c < |lists| && lists[c] != []
    ensures Alloc(lists, id) == Allocation(lists[c][0], lists[c := lists[c][1..]])
    ensures lists[id] != [] ==> c == id
    ensures lists[id] == [] ==> c != id
    ensures lists[id] == [] ==>
              forall d :: 0 <= d < |lists| && d != id && StealRank(id, d, |lists|) < StealRank(id, c, |lists|)
                ==> lists[d] == []
  {
    var n := |lists|;
    if lists[id] != [] {
      c := id;
    } else {
      var order := StealOrder(id, n);
      var d :| 0 <= d < n && lists[d] != [];
      StealOrderRank(id, n, d);
      var k := FirstNonEmpty(lists, order).value;
      c := order[k];
      StealOrderAt(id, n, k);
      forall e | 0 <= e < n && e != id && StealRank(id, e, n) < StealRank(id, c, n)
        ensures lists[e] == []
      {
        StealOrderRank(id, n, e);
      }
    }
  }

  /** `kalloc` returns 0 exactly when every CPU's list is empty. */
  lemma AllocZeroIffAllEmpty(lists: FreeLists, id: nat)
    requires id < |lists|
    requires forall c, k :: 0 <= c < |lists| && 0 <= k < |lists[c]| ==> lists[c][k] != 0
    ensures Alloc(lists, id).page == 0 <==> forall c :: 0 <= c < |lists| ==> lists[c] == []
  {
    if exists d :: 0 <= d < |lists| && lists[d] != [] {
      var c := AllocTakesFirstNonEmpty(lists, id);
    } else {
      assert lists[id] == [];
      assert forall j :: 0 <= j < |StealOrder(id, |lists|)| ==> lists[StealOrder(id, |lists|)[j]] == [];
    }
  }

  /**
   * Conservation: a successful `kalloc` returns a page that was free and is
   * free no longer while every other page keeps its status, so the number of
   * free pages drops by one; a failed one changes nothing.
   */
  lemma AllocConserves(lists: FreeLists, id: nat)
    requires id < |lists| && Distinct(lists)
    requires forall c, k :: 0 <= c < |lists| && 0 <= k < |lists[c]| ==> lists[c][k] != 0
    ensures var a := Alloc(lists, id);
            if a.page == 0 then a.lists == lists
            else && Occ(lists, a.page) == 1 && Occ(a.lists, a.page) == 0
                 && (forall q :: q != a.page ==> Occ(a.lists, q) == Occ(lists, q))
                 && Total(a.lists) == Total(lists) - 1
                 && Distinct(a.lists)
  {
    AllocZeroIffAllEmpty(lists, id);
    if exists d :: 0 <= d < |lists| && lists[d] != [] {
      var c := AllocTakesFirstNonEmpty(lists, id);
      PopConserves(lists, c);
    }
  }

  /** Popping the head of one list frees that page and no other. */
  lemma PopConserves(lists: FreeLists, c: nat)
    requires c < |lists| && lists[c] != [] && Distinct(lists)
    ensures var a := PopFrom(lists, c);
            && Occ(lists, a.page) == 1 && Occ(a.lists, a.page) == 0
            && (forall q :: q != a.page ==> Occ(a.lists, q) == Occ(lists, q))
            && Total(a.lists) == Total(lists) - 1
            && Distinct(a.lists)
  {
    var a := PopFrom(lists, c);
    var rest := lists[c][1..];
    assert lists[c] == [a.page] + rest;
    TotalUpdate(lists, c, rest);
    OccHas(lists, c, 0);
    forall q ensures Occ(a.lists, q) + (if q == a.page then 1 else 0) == Occ(lists, q) {
      OccUpdate(lists, c, rest, q);
      assert multiset(lists[c])[q] == multiset{a.page}[q] + multiset(rest)[q];
    }
  }

  /**
   * Conservation for `kfree`: pushing a page that is not free makes exactly
   * that page free, so the count rises by one and no page is free twice.
   */
  lemma FreeConserves(lists: FreeLists, id: nat, pa: nat)
    requires id < |lists| && Distinct(lists) && Occ(lists, pa) == 0
    ensures var after := lists[id := [pa] + lists[id]];
            && Occ(after, pa) == 1
            && (forall q :: q != pa ==> Occ(after, q) == Occ(lists, q))
            && Total(after) == Total(lists) + 1
            && Distinct(after)
  {
    var after := lists[id := [pa] + lists[id]];
    TotalUpdate(lists, id, [pa] + lists[id]);
    forall q ensures Occ(after, q) == Occ(lists, q) + (if q == pa then 1 else 0) {
      OccUpdate(lists, id, [pa] + lists[id], q);
      assert multiset([pa] + lists[id])[q] == multiset{pa}[q] + multiset(lists[id])[q];
    }
  }

  /** A page that is on no list does not occur. */
  lemma {:induction false} OccNotListed(lists: FreeLists, p: nat)
    requires forall c, k :: 0 <= c < |lists| && 0 <= k < |lists[c]| ==> lists[c][k] != p
    ensures Occ(lists, p) == 0
  {
    if lists != [] {
      assert p !in lists[0];
      OccNotListed(lists[1..], p);
    }
  }

  /** A successful `kalloc` removes its page from the free set, and only that page. */
  lemma AllocKeepsFreeSet(lists: FreeLists, id: nat, free: set<nat>)
    requires id < |lists| && FreeSetOf(lists, free)
    requires forall c, k :: 0 <= c < |lists| && 0 <= k < |lists[c]| ==> lists[c][k] != 0
    ensures Alloc(lists, id).page != 0 ==> Alloc(lists, id).page in free
    ensures FreeSetOf(Alloc(lists, id).lists, free - {Alloc(lists, id).page})
  {
    AllocConserves(lists, id);
    OccNotListed(lists, 0);
  }

  /** `kfree` of a page that is not free adds exactly that page to the free set. */
  lemma FreeKeepsFreeSet(lists: FreeLists, id: nat, pa: nat, free: set<nat>)
    requires id < |lists| && FreeSetOf(lists, free) && pa !in free
    ensures FreeSetOf(lists[id := [pa] + lists[id]], free + {pa})
  {
    FreeConserves(lists, id, pa);
  }

  // ---------------------------------------------------------------------------
  // The allocator state: kmem[NCPU]
  // ---------------------------------------------------------------------------

  /** The allocator's global state: one free list per CPU and the page contents. */
  class Kmem {
    /** `end`, the first address after the kernel image. */
    const kernelEnd: nat
    /** kmem[c].freelist for every CPU c, head first. */
    var freelist: array<seq<nat>>
    /** For each page touched so far, the byte its 4096 bytes were last set to. */
    var fill: map<nat, int>
    /** The pages that are free, whichever list holds them. */
    ghost var free: set<nat>

    /** What the code itself keeps true: every listed page passed kfree's check. */
    ghost predicate Valid()
      reads this, freelist
    {
      && 0 < kernelEnd
      && freelist.Length == NCPU
      && forall c, k :: 0 <= c < NCPU && 0 <= k < |freelist[c]| ==> KfreeAccepts(freelist[c][k], kernelEnd)
    }

    ghost function Lists(): FreeLists
      reads this, freelist
    {
      freelist[..]
    }

    /**
     * The free set is the union of the lists and no page is listed twice.
     * This holds as long as no caller frees a page that is already free,
     * which kfree does not check.
     */
    ghost predicate Consistent()
      reads this, freelist
    {
      FreeSetOf(Lists(), free)
    }

    /** `kinit`, run on CPU `bootCpu`: empty lists, then freerange(end, PHYSTOP). */
    constructor (kernelEnd: nat, bootCpu: nat)
      requires 0 < kernelEnd <= PHYSTOP && bootCpu < NCPU
      ensures Valid() && Consistent() && fresh(freelist) && this.kernelEnd == kernelEnd
      ensures Lists() == seq(NCPU, c => [])[bootCpu := Reverse(PageRange(kernelEnd, PHYSTOP))]
      ensures free == PageSet(PageRange(kernelEnd, PHYSTOP))
      ensures fill == FreeJunk(PageRange(kernelEnd, PHYSTOP))
    {
      this.kernelEnd := kernelEnd;
      freelist := new seq<nat>[NCPU](_ => []);
      fill := map[];
      free := {};
      new;
      forall p ensures Occ(Lists(), p) == 0 {
        OccAllEmpty(Lists(), p);
      }
      ghost var empty := Lists();
      assert empty == seq(NCPU, c => []);
      FreeRange(kernelEnd, PHYSTOP, bootCpu);
      PushOnEmpty(empty, bootCpu, Reverse(PageRange(kernelEnd, PHYSTOP)));
      FromEmpty(FreeJunk(PageRange(kernelEnd, PHYSTOP)), PageSet(PageRange(kernelEnd, PHYSTOP)));
    }

    /**
     * `kfree(pa)` on CPU `id`.  It panics (the model reports `panicked` and
     * changes nothing) unless `pa` is page aligned and within [end, PHYSTOP);
     * otherwise it fills the page with junk and pushes it on the caller's list.
     */
    method Kfree(pa: nat, id: nat) returns (panicked: bool)
      requires Valid() && id < NCPU
      modifies this, freelist
      ensures Valid() && freelist == old(freelist)
      ensures panicked <==> !KfreeAccepts(pa, kernelEnd)
      ensures panicked ==> Lists() == old(Lists()) && fill == old(fill) && free == old(free)
      ensures !panicked ==> Lists() == old(Lists())[id := [pa] + old(Lists()[id])]
      ensures !panicked ==> fill == old(fill)[pa := FREE_JUNK] && free == old(free) + {pa}
      ensures old(Consistent()) && pa !in old(free) ==> Consistent()
    {
      if pa % PGSIZE != 0 || pa < kernelEnd || pa >= PHYSTOP {
        return true;
      }
      ghost var before := Lists();
      ghost var wasConsistent := Consistent();
      fill := fill[pa := FREE_JUNK];
      freelist[id] := [pa] + freelist[id];
      free := free + {pa};
      if wasConsistent && pa !in old(free) {
        FreeKeepsFreeSet(before, id, pa, old(free));
      }
      return false;
    }

    /** `freerange(paStart, paEnd)` run on CPU `id`: kfree every whole page in ascending order. */
    method FreeRange(paStart: nat, paEnd: nat, id: nat)
      requires Valid() && id < NCPU && kernelEnd <= paStart && paEnd <= PHYSTOP
      modifies this, freelist
      ensures Valid() && freelist == old(freelist)
      ensures Lists() == old(Lists())[id := Reverse(PageRange(paStart, paEnd)) + old(Lists()[id])]
      ensures fill == old(fill) + FreeJunk(PageRange(paStart, paEnd))
      ensures free == old(free) + PageSet(PageRange(paStart, paEnd))
      ensures old(Consistent()) && PageSet(PageRange(paStart, paEnd)) !! old(free)
              ==> Consistent()
    {
      ghost var pages := PageRange(paStart, paEnd);
      ghost var disjoint := Consistent() && PageSet(pages) !! free;
      var p := PgRoundUp(paStart);
      ghost var i: nat := 0;
      ghost var l0, fill0, free0 := Lists(), fill, free;
      ListsStart(l0, id);
      assert pages[..0] == [];
      while p + PGSIZE <= paEnd
        invariant Valid() && freelist == old(freelist)
        invariant p == PgRoundUp(paStart) + i * PGSIZE && i <= |pages|
        invariant i < |pages| <==> p + PGSIZE <= paEnd
        invariant Lists() == l0[id := Reverse(pages[..i]) + l0[id]]
        invariant fill == fill0 + FreeJunk(pages[..i])
        invariant free == free0 + PageSet(pages[..i])
        invariant disjoint ==> Consistent()
        decreases paEnd - p
      {
        ghost var done := pages[..i];
        assert pages[i] == p;
        PageRangeMembers(paStart, paEnd, p);
        TakeSnoc(pages, i);
        if disjoint {
          PageRangeBefore(paStart, paEnd, i);
        }
        var panicked := Kfree(p, id);
        ListsStep(l0, id, done, p);
        RangeStep(done, p);
        UnionStep(fill0, FreeJunk(done), free0, PageSet(done), p);
        p := p + PGSIZE;
        i := i + 1;
      }
      assert pages[..i] == pages;
    }

    /**
     * `kalloc()` on CPU `id`: the page it returns (0 when every list is
     * empty) and the lists it leaves are those of `Alloc`; a returned page is
     * filled with ALLOC_JUNK and is no longer free.
     */
    method Kalloc(id: nat) returns (r: nat)
      requires Valid() && id < NCPU
      modifies this, freelist
      ensures Valid() && freelist == old(freelist)
      ensures Allocation(r, Lists()) == Alloc(old(Lists()), id)
      ensures fill == if r != 0 then old(fill)[r := ALLOC_JUNK] else old(fill)
      ensures free == old(free) - {r}
      ensures old(Consistent()) ==> Consistent() && (r != 0 ==> r in old(free))
    {
      ghost var lists := Lists();
      ghost var wasConsistent := Consistent();
      if freelist[id] != [] {
        r := freelist[id][0];
        freelist[id] := freelist[id][1..];
      } else {
        r := Steal(id);
      }
      if r != 0 {
        fill := fill[r := ALLOC_JUNK];
      }
      free := free - {r};
      if wasConsistent {
        AllocKeepsFreeSet(lists, id, old(free));
      }
    }

    /**
     * The part of `kalloc` that runs when the caller's own list is empty: try
     * CPUs id+1 .. NCPU-1, then 0 .. id-1, and pop the first non-empty list.
     */
    method Steal(id: nat) returns (r: nat)
      requires Valid() && id < NCPU && freelist[id] == []
      modifies freelist
      ensures Valid()
      ensures Allocation(r, Lists()) == Alloc(old(Lists()), id)
    {
      ghost var lists := Lists();
      r := 0;
      var stealId := id + 1;
      while stealId < NCPU
        invariant id + 1 <= stealId <= NCPU
        invariant Lists() == lists && r == 0
        invariant forall c :: id < c < stealId ==> lists[c] == []
      {
        if freelist[stealId] != [] {
          r := freelist[stealId][0];
          freelist[stealId] := freelist[stealId][1..];
          StealIsFirst(lists, id, stealId);
          return;
        }
        stealId := stealId + 1;
      }
      stealId := 0;
      while stealId < id
        invariant 0 <= stealId <= id
        invariant Lists() == lists && r == 0
        invariant forall c :: id < c < NCPU ==> lists[c] == []
        invariant forall c :: 0 <= c < stealId ==> lists[c] == []
      {
        // The source's `if (steal_id == id) continue;` can never fire here.
        if freelist[stealId] != [] {
          r := freelist[stealId][0];
          freelist[stealId] := freelist[stealId][1..];
          StealIsFirst(lists, id, stealId);
          return;
        }
        stealId := stealId + 1;
      }
      ghost var order := StealOrder(id, NCPU);
      forall j | 0 <= j < |order| ensures lists[order[j]] == [] {
        StealOrderAt(id, NCPU, j);
      }
    }
  }

  /** The pages of `s` as a set. */
  function PageSet(s: seq<nat>): (r: set<nat>)
    ensures forall p :: p in r <==> p in s
  {
    set p | p in s
  }

  /** The fill bytes of the pages of `s` after `kfree` wrote junk over them. */
  function FreeJunk(s: seq<nat>): (r: map<nat, int>)
    ensures r.Keys == PageSet(s)
    ensures forall p :: p in r ==> r[p] == FREE_JUNK
  {
    map p | p in s :: FREE_JUNK
  }

  /** Adding to an empty fill map or an empty free set. */
  lemma FromEmpty(m: map<nat, int>, s: set<nat>)
    ensures map[] + m == m && {} + s == s
  {
  }

  /** Marking one more page free on top of an earlier fill map and free set. */
  lemma UnionStep(m0: map<nat, int>, m: map<nat, int>, s0: set<nat>, s: set<nat>, p: nat)
    ensures (m0 + m)[p := FREE_JUNK] == m0 + m[p := FREE_JUNK]
    ensures (s0 + s) + {p} == s0 + (s + {p})
  {
  }

  /** Pushing pages on an empty list gives just those pages. */
  lemma PushOnEmpty(l: FreeLists, id: nat, s: seq<nat>)
    requires id < |l| && l[id] == []
    ensures l[id := s + l[id]] == l[id := s]
  {
    assert s + [] == s;
  }

  /** Pushing no pages leaves the lists as they are. */
  lemma ListsStart(l: FreeLists, id: nat)
    requires id < |l|
    ensures l[id := Reverse([]) + l[id]] == l
  {
    assert Reverse<nat>([]) + l[id] == l[id];
  }

  /** Pushing one more page of the range on top of the pages pushed so far. */
  lemma ListsStep(l: FreeLists, id: nat, done: seq<nat>, p: nat)
    requires id < |l|
    ensures var prev := l[id := Reverse(done) + l[id]];
            prev[id := [p] + prev[id]] == l[id := Reverse(done + [p]) + l[id]]
  {
    assert Reverse(done + [p]) == [p] + Reverse(done);
    assert [p] + (Reverse(done) + l[id]) == ([p] + Reverse(done)) + l[id];
  }

  /** The set and junk map of the pages pushed so far, one page later. */
  lemma RangeStep(done: seq<nat>, p: nat)
    ensures PageSet(done + [p]) == PageSet(done) + {p}
    ensures FreeJunk(done + [p]) == FreeJunk(done)[p := FREE_JUNK]
  {
  }

  /** Earlier pages of a range are below later ones. */
  lemma PageRangeBefore(start: nat, end: nat, i: nat)
    requires i < |PageRange(start, end)|
    ensures forall q :: q in PageRange(start, end)[..i] ==> q < PageRange(start, end)[i]
  {
    var pr := PageRange(start, end);
    forall q | q in pr[..i] ensures q < pr[i] {
      var j :| 0 <= j < i && pr[j] == q;
    }
  }

  /**
   * When CPU `id`'s list is empty and every CPU before `c` in steal order has
   * an empty list, `kalloc` pops CPU `c`.
   */
  lemma StealIsFirst(lists: FreeLists, id: nat, c: nat)
    requires id < |lists| && c < |lists| && c != id
    requires lists[id] == [] && lists[c] != []
    requires forall d :: 0 <= d < |lists| && d != id && StealRank(id, d, |lists|) < StealRank(id, c, |lists|)
               ==> lists[d] == []
    ensures Alloc(lists, id) == PopFrom(lists, c)
  {
    var n := |lists|;
    var order := StealOrder(id, n);
    StealOrderRank(id, n, c);
    var k := StealRank(id, c, n);
    forall j | 0 <= j < k ensures lists[order[j]] == [] {
      StealOrderAt(id, n, j);
    }
  }
}
