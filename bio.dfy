/**
 * The hash-sharded buffer cache of kernel/bio.c.
 *
 * NBUF buffers are spread over NBUCKET buckets; a block lives in bucket
 * HASH(blockno).  Each bucket's circular doubly linked list is modelled as
 * the sequence of buffer indices met when walking from `head.next`, so the
 * head of the sequence is the node right after the bucket's head.  A buffer
 * is an index into `bufs`; its sleep lock is the `locked` flag and its data
 * bytes are left out.  Spinlocks are left out: every operation is atomic,
 * and the clock `ticks` is an argument.
 */
module BufferCache {
  import opened Common

  const NBUF: nat := 30
  const NBUCKET: nat := 13
  /** `uint` fields wrap modulo 2^32. */
  const UINT_MOD: nat := 0x1_0000_0000

  function Hash(blockno: nat): (key: nat)
    ensures key < NBUCKET
  {
    blockno % NBUCKET
  }

  /** `x++` on a `uint`. */
  function Inc32(x: nat): (r: nat)
    requires x < UINT_MOD
    ensures r < UINT_MOD
    ensures x < UINT_MOD - 1 ==> r == x + 1
    ensures x == UINT_MOD - 1 ==> r == 0
  {
    (x + 1) % UINT_MOD
  }

  /** `x--` on a `uint`. */
  function Dec32(x: nat): (r: nat)
    requires x < UINT_MOD
    ensures r < UINT_MOD
    ensures 0 < x ==> r == x - 1
    ensures x == 0 ==> r == UINT_MOD - 1
  {
    if x == 0 then UINT_MOD - 1 else x - 1
  }

  /** The fields of a `struct buf` that the cache reads or writes. */
  datatype Buf = Buf(dev: nat, blockno: nat, valid: bool, refcnt: nat, lasttime: nat, locked: bool)

  /** A zero-initialised `struct buf`. */
  const ZeroBuf := Buf(0, 0, false, 0, 0, false)

  // ---------------------------------------------------------------------------
  // binit
  // ---------------------------------------------------------------------------

  /**
   * Bucket `i` after `binit` has pushed buffers 0 .. n-1 round-robin, each at
   * the head of its bucket: the buffers congruent to `i`, newest first.
   */
  function InitBucket(i: nat, n: nat): (r: seq<nat>)
    ensures forall b: nat :: b in r <==> b < n && b % NBUCKET == i
    ensures forall j, k :: 0 <= j < k < |r| ==> r[j] > r[k]
  {
    if n == 0 then []
    else
      var rest := InitBucket(i, n - 1);
      if (n - 1) % NBUCKET == i then
        assert forall k :: 0 <= k < |rest| ==> rest[k] in rest;
        [n - 1] + rest
      else rest
  }

  // ---------------------------------------------------------------------------
  // Searching a bucket
  // ---------------------------------------------------------------------------

  /** Whether buffer `b` holds block (dev, blockno). */
  predicate Holds(bufs: seq<Buf>, b: nat, dev: nat, blockno: nat)
  {
    b < |bufs| && bufs[b].dev == dev && bufs[b].blockno == blockno
  }

  /**
   * The buffer the cached-block loop of `bget` stops at: the first one in
   * list order that holds (dev, blockno), if any.
   */
  function FirstMatch(bufs: seq<Buf>, bucket: seq<nat>, dev: nat, blockno: nat): (r: Option<nat>)
    ensures r.None? <==> forall k :: 0 <= k < |bucket| ==> !Holds(bufs, bucket[k], dev, blockno)
    ensures r.Some? ==> r.value in bucket && Holds(bufs, r.value, dev, blockno)
    ensures r.Some? ==> exists k :: 0 <= k < |bucket| && bucket[k] == r.value
                                    && forall j :: 0 <= j < k ==> !Holds(bufs, bucket[j], dev, blockno)
  {
    if bucket == [] then None
    else if Holds(bufs, bucket[0], dev, blockno) then Some(bucket[0])
    else
      var r := FirstMatch(bufs, bucket[1..], dev, blockno);
      if r.Some? then
        var k :| 0 <= k < |bucket[1..]| && bucket[1..][k] == r.value
                 && forall j :: 0 <= j < k ==> !Holds(bufs, bucket[1..][j], dev, blockno);
        assert bucket[k + 1] == r.value;
        r
      else r
  }

  // ---------------------------------------------------------------------------
  // The LRU victim
  // ---------------------------------------------------------------------------

  /** The order in which the victim scan visits buffers: bucket 0's list, then bucket 1's, ... */
  function Concat(bs: seq<seq<nat>>): (r: seq<nat>)
    ensures forall x :: x in r <==> exists i :: 0 <= i < |bs| && x in bs[i]
  {
    if bs == [] then [] else Concat(bs[..|bs| - 1]) + bs[|bs| - 1]
  }

  /** Buffer `b` may be recycled: nobody holds a reference to it. */
  predicate Unused(bufs: seq<Buf>, b: nat)
  {
    b < |bufs| && bufs[b].refcnt == 0
  }

  /** No buffer in `order` is unused: `bget` panics. */
  predicate NoneUnused(bufs: seq<Buf>, order: seq<nat>)
  {
    forall j :: 0 <= j < |order| ==> !Unused(bufs, order[j])
  }

  /**
   * `order[k]` is the victim of the scan over `order`: an unused buffer whose
   * `lasttime` is no greater than that of any unused buffer in `order`, and
   * strictly smaller than that of every unused buffer visited before it.
   */
  predicate IsLru(bufs: seq<Buf>, order: seq<nat>, k: nat)
  {
    && k < |order| && Unused(bufs, order[k])
    && (forall j :: 0 <= j < |order| && Unused(bufs, order[j]) ==>
          bufs[order[k]].lasttime <= bufs[order[j]].lasttime)
    && (forall j :: 0 <= j < k && Unused(bufs, order[j]) ==>
          bufs[order[j]].lasttime > bufs[order[k]].lasttime)
  }

  /** Scan order determines the victim: at most one position is the LRU one. */
  lemma LruUnique(bufs: seq<Buf>, order: seq<nat>, k1: nat, k2: nat)
    requires IsLru(bufs, order, k1) && IsLru(bufs, order, k2)
    ensures k1 == k2
  {
  }

  /** One more buffer scanned: the running victim of `bget`'s loop stays the LRU. */
  lemma ScanStep(bufs: seq<Buf>, order: seq<nat>, x: nat, found: bool, pos: nat)
    requires found ==> IsLru(bufs, order, pos)
    requires !found ==> NoneUnused(bufs, order)
    ensures var taken := Unused(bufs, x) && (!found || bufs[x].lasttime < bufs[order[pos]].lasttime);
            && (taken ==> IsLru(bufs, order + [x], |order|))
            && (!taken && found ==> IsLru(bufs, order + [x], pos))
            && (!taken && !found ==> NoneUnused(bufs, order + [x]))
  {
    var o := order + [x];
    assert forall j :: 0 <= j < |order| ==> o[j] == order[j];
    assert o[|order|] == x;
  }

  /** Removing buffer `x` from a bucket list, as unlinking its node does. */
  function Without(s: seq<nat>, x: nat): (r: seq<nat>)
    ensures forall y :: y in r <==> y in s && y != x
    ensures NoDup(s) ==> NoDup(r)
  {
    if s == [] then []
    else if s[0] == x then Without(s[1..], x)
    else
      var rest := Without(s[1..], x);
      assert NoDup(s) ==> NoDup(s[1..]) && s[0] !in rest;
      [s[0]] + rest
  }

  // ---------------------------------------------------------------------------
  // The cache
  // ---------------------------------------------------------------------------

  class BCache {
    var bufs: array<Buf>
    /** The list of each bucket, starting at `head.next`. */
    var buckets: array<seq<nat>>
    /** The bucket each buffer is linked into. */
    ghost var home: seq<nat>

    /**
     * Every buffer is linked into exactly one bucket, once: the buckets
     * partition the buffers, and `home` names each buffer's bucket.
     */
    ghost predicate Partitioned()
      reads this, bufs, buckets
    {
      && bufs.Length == NBUF && buckets.Length == NBUCKET && |home| == NBUF
      && (forall i, k :: 0 <= i < NBUCKET && 0 <= k < |buckets[i]| ==>
            buckets[i][k] < NBUF && home[buckets[i][k]] == i)
      && (forall i :: 0 <= i < NBUCKET ==> NoDup(buckets[i]))
      && (forall b :: 0 <= b < NBUF ==> home[b] < NBUCKET && b in buckets[home[b]])
    }

    /**
     * The partition, and every buffer holding valid data sits in the bucket
     * of its block, where the lookup of `bget` searches for it.
     */
    ghost predicate Valid()
      reads this, bufs, buckets
    {
      && Partitioned()
      && (forall b :: 0 <= b < NBUF && bufs[b].valid ==> home[b] == Hash(bufs[b].blockno))
      && (forall b :: 0 <= b < NBUF ==> bufs[b].refcnt < UINT_MOD)
    }

    ghost function ScanOrder(): seq<nat>
      reads this, buckets
    {
      Concat(buckets[..])
    }

    /** `binit`: buffer b is pushed at the head of bucket b % NBUCKET, in order. */
    constructor ()
      ensures Valid() && fresh(bufs) && fresh(buckets)
      ensures forall i :: 0 <= i < NBUCKET ==> buckets[i] == InitBucket(i, NBUF)
      ensures forall b :: 0 <= b < NBUF ==> bufs[b] == ZeroBuf && home[b] == b % NBUCKET
    {
      var bs := new Buf[NBUF](_ => ZeroBuf);
      var bk := new seq<nat>[NBUCKET](_ => []);
      var start := 0;
      var b := 0;
      while b < NBUF
        invariant 0 <= b <= NBUF && start == b % NBUCKET
        invariant forall i :: 0 <= i < NBUCKET ==> bk[i] == InitBucket(i, b)
        invariant forall c :: 0 <= c < NBUF ==> bs[c] == ZeroBuf
      {
        bs[b] := bs[b].(lasttime := 0, refcnt := 0);
        bk[start] := [b] + bk[start];
        start := (start + 1) % NBUCKET;
        b := b + 1;
      }
      bufs, buckets := bs, bk;
      home := seq(NBUF, b => b % NBUCKET);
      new;
      forall i, k | 0 <= i < NBUCKET && 0 <= k < |buckets[i]|
        ensures buckets[i][k] < NBUF && home[buckets[i][k]] == i
      {
        assert buckets[i][k] in InitBucket(i, NBUF);
      }
      forall c | 0 <= c < NBUF ensures c in buckets[home[c]] {
        assert home[c] == c % NBUCKET;
      }
    }

    /** A valid buffer holding (dev, blockno) is always found by the lookup in its bucket. */
    lemma CachedIsHit(c: nat, dev: nat, blockno: nat)
      requires Valid() && c < NBUF && bufs[c].valid && Holds(bufs[..], c, dev, blockno)
      ensures FirstMatch(bufs[..], buckets[Hash(blockno)], dev, blockno).Some?
    {
      var bucket := buckets[Hash(blockno)];
      var k :| 0 <= k < |bucket| && bucket[k] == c;
    }

    /** The loop of `bget` that looks for (dev, blockno) in bucket `key`. */
    method Lookup(key: nat, dev: nat, blockno: nat) returns (found: Option<nat>)
      requires Valid() && key < NBUCKET
      ensures found == FirstMatch(bufs[..], buckets[key], dev, blockno)
    {
      var bucket := buckets[key];
      var k := 0;
      while k < |bucket|
        invariant 0 <= k <= |bucket|
        invariant FirstMatch(bufs[..], bucket, dev, blockno)
               == FirstMatch(bufs[..], bucket[k..], dev, blockno)
      {
        var b := bucket[k];
        if bufs[b].dev == dev && bufs[b].blockno == blockno {
          return Some(b);
        }
        assert bucket[k..][1..] == bucket[k + 1..];
        k := k + 1;
      }
      return None;
    }

    /**
     * The victim scan of `bget`: walk every bucket in index order and keep the
     * unused buffer with the smallest `lasttime`, the first one on ties.
     * `least` is -1 when no buffer is unused; `holding` is the bucket where
     * the victim was found.
     */
    method FindVictim() returns (least: int, holding: int, ghost pos: nat)
      requires Valid()
      ensures least == -1 <==> NoneUnused(bufs[..], ScanOrder())
      ensures least != -1 ==> IsLru(bufs[..], ScanOrder(), pos) && least == ScanOrder()[pos]
      ensures least != -1 ==> 0 <= holding < NBUCKET && 0 <= least < NBUF && holding == home[least]
    {
      least, holding, pos := -1, -1, 0;
      var i := 0;
      while i < NBUCKET
        invariant 0 <= i <= NBUCKET
        invariant least == -1 ==> NoneUnused(bufs[..], Concat(buckets[..i]))
        invariant least != -1 ==> IsLru(bufs[..], Concat(buckets[..i]), pos)
        invariant least != -1 ==> least == Concat(buckets[..i])[pos]
        invariant least != -1 ==> 0 <= holding < i && least in buckets[holding]
      {
        var newfound;
        least, newfound, pos := ScanBucket(i, least, pos);
        if newfound {
          holding := i;
        }
        i := i + 1;
      }
      assert buckets[..NBUCKET] == buckets[..];
    }

    /**
     * One iteration of the victim scan: walk bucket `i`, updating the
     * running victim `least` whenever an unused buffer with a strictly
     * smaller `lasttime` turns up; `newfound` tells whether one did.
     */
    method ScanBucket(i: nat, least0: int, ghost pos0: nat) returns (least: int, newfound: bool, ghost pos: nat)
      requires Valid() && i < NBUCKET
      requires least0 == -1 ==> NoneUnused(bufs[..], Concat(buckets[..i]))
      requires least0 != -1 ==> IsLru(bufs[..], Concat(buckets[..i]), pos0)
      requires least0 != -1 ==> least0 == Concat(buckets[..i])[pos0]
      ensures least == -1 ==> NoneUnused(bufs[..], Concat(buckets[..i + 1]))
      ensures least != -1 ==> IsLru(bufs[..], Concat(buckets[..i + 1]), pos)
      ensures least != -1 ==> least == Concat(buckets[..i + 1])[pos]
      ensures newfound ==> least != -1 && least in buckets[i]
      ensures !newfound ==> least == least0
    {
      var bucket := buckets[i];
      ghost var before := Concat(buckets[..i]);
      least, newfound, pos := least0, false, pos0;
      var k := 0;
      while k < |bucket|
        invariant 0 <= k <= |bucket|
        invariant least == -1 ==> NoneUnused(bufs[..], before + bucket[..k])
        invariant least != -1 ==> IsLru(bufs[..], before + bucket[..k], pos)
        invariant least != -1 ==> least == (before + bucket[..k])[pos]
        invariant newfound ==> least != -1 && least in bucket
        invariant !newfound ==> least == least0
      {
        var b := bucket[k];
        ghost var seen := before + bucket[..k];
        ScanStep(bufs[..], seen, b, least != -1, pos);
        TakeSnoc(bucket, k);
        assert before + bucket[..k + 1] == seen + [b];
        if bufs[b].refcnt == 0 && (least == -1 || bufs[b].lasttime < bufs[least].lasttime) {
          least := b;
          newfound := true;
          pos := |seen|;
        }
        k := k + 1;
      }
      assert buckets[..i + 1][..i] == buckets[..i];
      assert bucket[..|bucket|] == bucket;
    }

    /** Unlink buffer `b` from bucket `from` and link it at the head of bucket `to`. */
    method MoveToHead(b: nat, from: nat, to: nat)
      requires Partitioned() && b < NBUF && from == home[b] && to < NBUCKET && from != to
      modifies this, buckets
      ensures Partitioned() && buckets == old(buckets) && bufs == old(bufs)
      ensures home == old(home)[b := to]
      ensures buckets[from] == Without(old(buckets[from]), b)
      ensures buckets[to] == [b] + old(buckets[to])
      ensures forall i :: 0 <= i < NBUCKET && i != from && i != to ==> buckets[i] == old(buckets[i])
    {
      assert b !in buckets[to];
      buckets[from] := Without(buckets[from], b);
      buckets[to] := [b] + buckets[to];
      home := home[b := to];
      forall i, k | 0 <= i < NBUCKET && 0 <= k < |buckets[i]|
        ensures buckets[i][k] < NBUF && home[buckets[i][k]] == i
      {
        if i == from {
          assert buckets[i][k] in old(buckets[from]);
        } else if i == to && k > 0 {
          assert buckets[i][k] == old(buckets[to])[k - 1];
        }
      }
    }

    /**
     * `bget(dev, blockno)`.  A hit in bucket HASH(blockno) takes another
     * reference to the buffer found; a miss recycles a buffer (`Recycle`).
     * The returned buffer is locked.
     */
    method Bget(dev: nat, blockno: nat, ticks: nat) returns (b: nat, panicked: bool)
      requires Valid()
      modifies this, bufs, buckets
      ensures Valid() && bufs == old(bufs) && buckets == old(buckets)
      ensures var hit := FirstMatch(old(bufs[..]), old(buckets[Hash(blockno)]), dev, blockno);
              hit.Some? ==>
                && !panicked && b == hit.value
                && bufs[..] == old(bufs[..])[b := old(bufs[b]).(refcnt := Inc32(old(bufs[b].refcnt)),
                                                                 lasttime := ticks, locked := true)]
                && buckets[..] == old(buckets[..]) && home == old(home)
      ensures FirstMatch(old(bufs[..]), old(buckets[Hash(blockno)]), dev, blockno).None? ==>
                Recycled(old(bufs[..]), old(buckets[..]), old(home), dev, blockno, ticks, b, panicked, false)
      ensures !panicked ==> b < NBUF && Holds(bufs[..], b, dev, blockno) && bufs[b].locked
      ensures !panicked ==> b in buckets[Hash(blockno)]
    {
      var key := Hash(blockno);
      var found := Lookup(key, dev, blockno);
      if found.Some? {
        b := found.value;
        bufs[b] := bufs[b].(refcnt := Inc32(bufs[b].refcnt), lasttime := ticks, locked := true);
        return b, false;
      }
      b, panicked := Recycle(dev, blockno, ticks);
    }

    /**
     * What the miss path of `bget` leaves, from the buffers, bucket lists and
     * homes it started with: it panics exactly when no buffer is unused;
     * otherwise the victim `b` is the LRU buffer of the scan, it now holds
     * (dev, blockno) with one reference, locked, with its `valid` flag set
     * to `loaded` (false after `bget`, true after `bread`), and it has been
     * moved to the head of bucket HASH(blockno) unless it already lived
     * there.  No other buffer changes.
     */
    ghost predicate Recycled(bufs0: seq<Buf>, buckets0: seq<seq<nat>>, home0: seq<nat>,
                             dev: nat, blockno: nat, ticks: nat, b: nat, panicked: bool, loaded: bool)
      reads this, bufs, buckets
      requires |home0| == NBUF && |buckets0| == NBUCKET
    {
      var key := Hash(blockno);
      && (panicked <==> NoneUnused(bufs0, Concat(buckets0)))
      && (panicked ==> bufs[..] == bufs0 && buckets[..] == buckets0 && home == home0)
      && (!panicked ==>
            && b < NBUF && buckets.Length == NBUCKET && home0[b] < NBUCKET
            && (exists k: nat :: IsLru(bufs0, Concat(buckets0), k) && Concat(buckets0)[k] == b)
            && bufs[..] == bufs0[b := Buf(dev, blockno, loaded, 1, ticks, true)]
            && home == home0[b := key]
            && (home0[b] == key ==> buckets[..] == buckets0)
            && (home0[b] != key ==>
                  && buckets[key] == [b] + buckets0[key]
                  && buckets[home0[b]] == Without(buckets0[home0[b]], b)
                  && forall i :: 0 <= i < NBUCKET && i != key && i != home0[b] ==> buckets[i] == buckets0[i]))
    }

    /** The miss path of `bget`: the victim scan, the bucket move and the retagging. */
    method Recycle(dev: nat, blockno: nat, ticks: nat) returns (b: nat, panicked: bool)
      requires Valid()
      modifies this, bufs, buckets
      ensures Valid() && bufs == old(bufs) && buckets == old(buckets)
      ensures Recycled(old(bufs[..]), old(buckets[..]), old(home), dev, blockno, ticks, b, panicked, false)
      ensures !panicked ==> b < NBUF && Holds(bufs[..], b, dev, blockno) && bufs[b].locked
      ensures !panicked ==> b in buckets[Hash(blockno)]
    {
      var key := Hash(blockno);
      var least, holding, pos := FindVictim();
      if least == -1 {
        return 0, true;
      }
      b := least;
      if holding != key {
        MoveToHead(b, holding, key);
      }
      bufs[b] := Buf(dev, blockno, false, 1, ticks, true);
      panicked := false;
    }

    /** `bread`: `bget`, then mark the buffer's contents as read from disk. */
    method Bread(dev: nat, blockno: nat, ticks: nat) returns (b: nat, panicked: bool)
      requires Valid()
      modifies this, bufs, buckets
      ensures Valid() && bufs == old(bufs) && buckets == old(buckets)
      ensures panicked <==> FirstMatch(old(bufs[..]), old(buckets[Hash(blockno)]), dev, blockno).None?
                            && NoneUnused(old(bufs[..]), old(ScanOrder()))
      ensures var hit := FirstMatch(old(bufs[..]), old(buckets[Hash(blockno)]), dev, blockno);
              hit.Some? ==>
                && !panicked && b == hit.value
                && bufs[..] == old(bufs[..])[b := old(bufs[b]).(refcnt := Inc32(old(bufs[b].refcnt)),
                                                                 lasttime := ticks, locked := true, valid := true)]
                && buckets[..] == old(buckets[..]) && home == old(home)
      ensures FirstMatch(old(bufs[..]), old(buckets[Hash(blockno)]), dev, blockno).None? ==>
                Recycled(old(bufs[..]), old(buckets[..]), old(home), dev, blockno, ticks, b, panicked, true)
      ensures !panicked ==> b < NBUF && Holds(bufs[..], b, dev, blockno) && bufs[b].valid && bufs[b].locked
      ensures !panicked ==> forall c :: 0 <= c < NBUF && c != b ==> bufs[c] == old(bufs[c])
    {
      b, panicked := Bget(dev, blockno, ticks);
      if !panicked && !bufs[b].valid {
        bufs[b] := bufs[b].(valid := true);
      }
    }

    /** `bwrite`: panics unless the caller holds the buffer's lock; the disk write itself is left out. */
    method Bwrite(b: nat) returns (panicked: bool)
      requires Valid() && b < NBUF
      ensures panicked <==> !bufs[b].locked
    {
      panicked := !bufs[b].locked;
    }

    /**
     * `brelse`: panics unless the buffer is locked; otherwise unlocks it and
     * drops a reference, stamping `lasttime` when the last one goes.
     */
    method Brelse(b: nat, ticks: nat) returns (panicked: bool)
      requires Valid() && b < NBUF
      modifies bufs
      ensures Valid()
      ensures panicked <==> !old(bufs[b].locked)
      ensures panicked ==> bufs[..] == old(bufs[..])
      ensures !panicked ==>
                var cnt := Dec32(old(bufs[b].refcnt));
                bufs[..] == old(bufs[..])[b := old(bufs[b]).(locked := false, refcnt := cnt,
                                                             lasttime := if cnt == 0 then ticks else old(bufs[b].lasttime))]
    {
      if !bufs[b].locked {
        return true;
      }
      bufs[b] := bufs[b].(locked := false);
      bufs[b] := bufs[b].(refcnt := Dec32(bufs[b].refcnt));
      if bufs[b].refcnt == 0 {
        bufs[b] := bufs[b].(lasttime := ticks);
      }
      return false;
    }

    /** `bpin`: take one more reference; nothing else changes. */
    method Bpin(b: nat)
      requires Valid() && b < NBUF
      modifies bufs
      ensures Valid()
      ensures bufs[..] == old(bufs[..])[b := old(bufs[b]).(refcnt := Inc32(old(bufs[b].refcnt)))]
    {
      bufs[b] := bufs[b].(refcnt := Inc32(bufs[b].refcnt));
    }

    /** `bunpin`: drop one reference; nothing else changes. */
    method Bunpin(b: nat)
      requires Valid() && b < NBUF
      modifies bufs
      ensures Valid()
      ensures bufs[..] == old(bufs[..])[b := old(bufs[b]).(refcnt := Dec32(old(bufs[b].refcnt)))]
    {
      bufs[b] := bufs[b].(refcnt := Dec32(bufs[b].refcnt));
    }
  }
}
