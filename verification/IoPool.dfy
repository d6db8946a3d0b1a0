/** The pool of IO objects behind a DMA channel (`spdk_simple_pool`): a ring of
    pointers to the elements of one array.
 */
module IoPool {
  import opened Numbers

  /** The addresses of the first `n` elements of an array. */
  function Addresses(base: nat, elemSize: nat, n: nat): (a: seq<nat>)
    ensures |a| == n
  {
    seq(n, i requires 0 <= i < n => base + elemSize * i)
  }

  lemma AddressesAreDistinct(base: nat, elemSize: nat, n: nat)
    requires elemSize > 0
    ensures NoDuplicates(Addresses(base, elemSize, n))
  {
    forall i: nat, j: nat | i < j < n
      ensures base + elemSize * i != base + elemSize * j
    {
      MulGap(elemSize, i, j);
    }
  }

  ghost predicate NoDuplicates(s: seq<nat>) {
    forall i: nat, j: nat | i < j < |s| :: s[i] != s[j]
  }

  ghost function Members(s: seq<nat>): set<nat> {
    set x | x in s
  }

  // ---------------------------------------------------------------- the pool as a queue

  /** The free elements in the order in which they are handed out, and those in use. */
  datatype Pool = Pool(free: seq<nat>, used: set<nat>)

  ghost function Get(p: Pool): (Pool, Option<nat>) {
    if p.free == [] then (p, None)
    else (Pool(p.free[1..], p.used + {p.free[0]}), Some(p.free[0]))
  }

  ghost function Put(p: Pool, io: nat): Pool {
    Pool(p.free + [io], p.used - {io})
  }

  /** The pool manages exactly these elements: each one is free once or in use. */
  ghost predicate Conserves(p: Pool, elements: set<nat>) {
    && NoDuplicates(p.free)
    && Members(p.free) !! p.used
    && Members(p.free) + p.used == elements
  }

  lemma GetConserves(p: Pool, elements: set<nat>)
    requires Conserves(p, elements)
    ensures Conserves(Get(p).0, elements)
    ensures Get(p).1.None? <==> p.used == elements
  {
    if p.free != [] {
      var first, rest := p.free[0], p.free[1..];
      assert p.free == [first] + rest;
      assert Members(p.free) == {first} + Members(rest);
      assert first !in rest;
      assert first in Members(p.free);
    } else {
      assert Members(p.free) == {};
    }
  }

  lemma PutConserves(p: Pool, io: nat, elements: set<nat>)
    requires Conserves(p, elements) && io in p.used
    ensures Conserves(Put(p, io), elements)
  {
    assert io !in Members(p.free);
    assert Members(p.free + [io]) == Members(p.free) + {io};
  }

  lemma {:induction false} FreeCount(s: seq<nat>)
    requires NoDuplicates(s)
    ensures |Members(s)| == |s|
  {
    if s != [] {
      var n := |s| - 1;
      FreeCount(s[..n]);
      assert s == s[..n] + [s[n]];
      assert s[n] !in s[..n];
      assert Members(s) == Members(s[..n]) + {s[n]};
    }
  }

  /** Free plus used elements always add up to the capacity. */
  lemma CapacityIsConstant(p: Pool, elements: set<nat>)
    requires Conserves(p, elements)
    ensures |p.free| + |p.used| == |elements|
  {
    FreeCount(p.free);
  }

  datatype Operation = GetOp | PutOp(io: nat)

  /** A run in which only elements in use are put back. */
  ghost predicate IsRun(pools: seq<Pool>, ops: seq<Operation>) {
    && |pools| == |ops| + 1
    && forall i: nat | i < |ops| ::
         match ops[i]
         case GetOp => pools[i + 1] == Get(pools[i]).0
         case PutOp(io) => io in pools[i].used && pools[i + 1] == Put(pools[i], io)
  }

  /** Conservation over every disciplined run. */
  lemma {:induction false} RunsConserve(pools: seq<Pool>, ops: seq<Operation>, elements: set<nat>, n: nat)
    requires IsRun(pools, ops) && Conserves(pools[0], elements) && n <= |ops|
    ensures Conserves(pools[n], elements)
  {
    if n > 0 {
      RunsConserve(pools, ops, elements, n - 1);
      match ops[n - 1]
      case GetOp => GetConserves(pools[n - 1], elements);
      case PutOp(io) => PutConserves(pools[n - 1], io, elements);
    }
  }

  // ---------------------------------------------------------------- reset

  /** Element addresses computed with the size cut to 16 bits are the right ones exactly if
      the size fits or there is at most one element. */
  lemma ResetIsExact(base: nat, elemSize: nat, n: nat)
    ensures Addresses(base, elemSize % 0x1_0000, n) == Addresses(base, elemSize, n) <==>
            elemSize < 0x1_0000 || n <= 1
  {
    var a, b := Addresses(base, elemSize % 0x1_0000, n), Addresses(base, elemSize, n);
    if n > 1 {
      assert a[1] == base + elemSize % 0x1_0000 && b[1] == base + elemSize;
    } else if n == 1 {
      assert a[0] == base && b[0] == base;
    }
  }

  // ---------------------------------------------------------------- the ring

  function Next(i: nat, size: nat): (j: nat)
    requires i < size
    ensures j < size
  {
    if i + 1 == size then 0 else i + 1
  }

  class SimplePool {
    const base: nat
    /** The `elem_size` field, a 16-bit number. */
    const elemSize: nat
    /** The size that init was called with. */
    ghost const fullSize: nat
    const ring: array<nat>
    var head: nat
    var tail: nat
    ghost var pool: Pool

    /** All elements but the one that stays behind in the last ring slot. */
    ghost function Initial(): seq<nat>
      reads this
    {
      if ring.Length == 0 then [] else Addresses(base, fullSize, ring.Length - 1)
    }

    ghost function Elements(): set<nat>
      reads this
    {
      Members(Initial())
    }

    ghost predicate Valid()
      reads this, ring
    {
      && 0 < ring.Length < 0x1_0000 && 0 < fullSize && elemSize == fullSize % 0x1_0000
      && head < ring.Length && tail < ring.Length
      && |pool.free| < ring.Length
      && tail == RingSlot(head, |pool.free|, ring.Length)
      && (forall j | 0 <= j < |pool.free| :: ring[RingSlot(head, j, ring.Length)] == pool.free[j])
      && Conserves(pool, Elements())
    }

    /** `spdk_simple_pool_init`. The count plus one fits in 16 bits; the element size, a
        `size_t`, may not, and is stored truncated. */
    constructor (cnt: nat, elemSize: nat, base: nat)
      requires cnt + 1 < 0x1_0000 && 0 < elemSize
      ensures Valid() && pool == Pool(Initial(), {}) && Initial() == Addresses(base, elemSize, cnt)
      ensures ring.Length == cnt + 1 && this.base == base && fullSize == elemSize && fresh(ring)
    {
      this.base, this.elemSize, this.fullSize := base, elemSize % 0x1_0000, elemSize;
      ring := new nat[cnt + 1];
      head, tail := 0, cnt;
      pool := Pool(Addresses(base, elemSize, cnt), {});
      new;
      FillRing(elemSize);
      AddressesAreDistinct(base, elemSize, cnt);
    }

    /** The loop of init and reset that rebuilds the ring from the array. */
    method FillRing(size: nat)
      modifies ring
      ensures ring[..] == Addresses(base, size, ring.Length)
    {
      for i := 0 to ring.Length
        invariant forall j | 0 <= j < i :: ring[j] == base + size * j
      {
        ring[i] := base + size * i;
      }
    }

    /** `spdk_simple_pool_get`: returns nothing exactly if all elements are in use. */
    method GetIo() returns (io: Option<nat>)
      requires Valid()
      modifies this`head, this`pool
      ensures Valid() && (pool, io) == Get(old(pool))
      ensures io.None? <==> old(pool.used) == Elements()
    {
      GetConserves(pool, Elements());
      if tail == head {
        return None;
      }
      var oldHead := head;
      assert RingSlot(head, 0, ring.Length) == head;
      head := Next(oldHead, ring.Length);
      io := Some(ring[oldHead]);
      pool := Get(pool).0;
    }

    /** `spdk_simple_pool_put` of an element that is in use. */
    method PutIo(io: nat)
      requires Valid() && io in pool.used
      modifies this`tail, this`pool, ring
      ensures Valid() && pool == Put(old(pool), io)
    {
      PutConserves(pool, io, Elements());
      RoomToPut();
      ring[tail] := io;
      tail := Next(tail, ring.Length);
      pool := Put(pool, io);
    }

    /** While an element is in use the ring has a second empty slot. */
    lemma RoomToPut()
      requires Valid() && pool.used != {}
      ensures |pool.free| + 1 < ring.Length
    {
      CapacityIsConstant(pool, Elements());
      AddressesAreDistinct(base, fullSize, ring.Length - 1);
      FreeCount(Initial());
    }

    /** `spdk_simple_pool_reset` from any reachable state. The ring again holds the initial
        free list, and the pool is usable, exactly if the element size fits 16 bits or there
        is at most one element to hand out. */
    method Reset()
      requires Valid()
      modifies this`head, this`tail, this`pool, ring
      ensures head == 0 && tail == ring.Length - 1 && pool == Pool(Initial(), {})
      ensures ring[..] == Addresses(base, elemSize, ring.Length)
      ensures ring[..ring.Length - 1] == Initial() <==> fullSize < 0x1_0000 || ring.Length <= 2
      ensures Valid() <==> fullSize < 0x1_0000 || ring.Length <= 2
    {
      FillRing(elemSize);
      head, tail := 0, ring.Length - 1;
      pool := Pool(Initial(), {});
      AddressesAreDistinct(base, fullSize, ring.Length - 1);
      ResetIsExact(base, fullSize, ring.Length - 1);
      RingPrefix();
    }

    /** After a reset the ring without its last slot is what the pool hands out. */
    lemma RingPrefix()
      requires ring.Length > 0 && ring[..] == Addresses(base, elemSize, ring.Length)
      ensures ring[..ring.Length - 1] == Addresses(base, elemSize, ring.Length - 1)
      ensures (forall j | 0 <= j < ring.Length - 1 :: ring[RingSlot(0, j, ring.Length)] == Initial()[j])
              <==> ring[..ring.Length - 1] == Initial()
    {
      assert forall j | 0 <= j < ring.Length :: ring[j] == ring[..][j];
      assert forall j | 0 <= j < ring.Length - 1 :: ring[..ring.Length - 1][j] == ring[j];
      if forall j | 0 <= j < ring.Length - 1 :: ring[RingSlot(0, j, ring.Length)] == Initial()[j] {
        forall j | 0 <= j < ring.Length - 1
          ensures ring[j] == Initial()[j]
        {
          assert RingSlot(0, j, ring.Length) == j;
        }
      }
    }
  }
}
