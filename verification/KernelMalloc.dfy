/** malloc and free as the kernel runs them (threads/malloc.c), on a page pool and free lists updated in place.
    Each method is one call under its descriptor's lock. */
module KernelMalloc {
  import opened Options
  import opened Bitmaps
  import opened BlockLayout
  import opened BlockHeap
  import opened Vaddr
  import opened PageAllocator
  import StableOrder
  import opened Lists

  class Allocator {
    const pool: Pool
    const sizes: seq<nat>              // the descriptors' block_size
    const perArena: seq<nat>           // and blocks_per_arena
    var arenas: map<nat, Arena>        // the arena headers, by page number
    var free: seq<seq<nat>>            // the descriptors' free lists
    ghost var live: map<nat, nat>

    ghost predicate Ready()
      reads this, pool, pool.usedMap, pool.usedMap.bits
    {
      && pool.Valid() && |free| == |sizes| == |perArena| == DESCS
      && forall d :: 0 <= d < DESCS ==> sizes[d] == BlockSize(d) && perArena[d] == BlocksPerArena(d)
    }

    ghost function Now(): (s: Heap)
      reads this, pool, pool.usedMap, pool.usedMap.bits
      requires Ready()
      ensures |s.free| == DESCS
    {
      Heap(pool.base, pool.Used(), arenas, free, live)
    }

    ghost predicate Valid()
      reads this, pool, pool.usedMap, pool.usedMap.bits
    {
      Ready() && Quiet(Now())
    }

    constructor (pool: Pool)
      requires pool.Valid()
      ensures Valid() && this.pool == pool
      ensures Now() == Heap(pool.base, pool.Used(), map[], seq(DESCS, _ => []), map[])
    {
      var blockSizes, counts := MallocInit();
      this.pool := pool;
      sizes, perArena := blockSizes, counts;
      arenas, live := map[], map[];
      free := seq(DESCS, _ => []);
    }

    /** The first descriptor whose blocks are large enough. */
    method Descriptor(size: nat) returns (d: nat)
      requires Ready()
      ensures d == FindDesc(size, 0)
    {
      d := 0;
      while d < |sizes| && sizes[d] < size
        invariant d <= DESCS && FindDesc(size, d) == FindDesc(size, 0)
      {
        d := d + 1;
      }
    }

    /** Sets up the arena at page p and appends its blocks to the free list. */
    method AddArena(p: nat, d: nat)
      requires Ready() && d < DESCS
      modifies this`arenas, this`free
      ensures Ready() && arenas == old(arenas)[p := Small(d, BlocksPerArena(d))]
      ensures free == old(free)[d := old(free)[d] + Blocks(p, d)]
    {
      hide BlockSize, BlocksPerArena, Addr;
      var i := 0;
      while i < perArena[d]
        invariant i <= BlocksPerArena(d) && |free| == DESCS
        invariant free[d] == old(free)[d] + Blocks(p, d)[..i] && free == old(free)[d := free[d]]
        modifies this`free
      {
        var b: nat := p * PGSIZE + HEADER + i * sizes[d];
        BlockAt(p, d, i);
        free := free[d := free[d] + [b]];
        i := i + 1;
      }
      assert Blocks(p, d)[..i] == Blocks(p, d);
      arenas := arenas[p := Small(d, perArena[d])];
    }

    method Malloc(size: nat) returns (r: Option<nat>)
      requires Valid() && size < W32
      modifies this, pool.usedMap.bits
      ensures Valid() && (Now(), r) == BlockHeap.Malloc(old(Now()), size)
    {
      hide Inv, Busy, MallocBig, MallocSmall;
      MallocKeeps(Now(), size);
      if size == 0 {
        return None;
      }
      var d := Descriptor(size);
      if d == |sizes| {
        r := TakePages(size);
      } else {
        r := TakeBlock(d, size);
      }
    }

    method TakePages(size: nat) returns (r: Option<nat>)
      requires Ready()
      modifies this, pool.usedMap.bits
      ensures Ready() && (Now(), r) == MallocBig(old(Now()), size)
    {
      hide Obtain, Marked, Pool.Valid, SetRange, FirstFit;
      var cnt := (size + HEADER + PGSIZE - 1) % W32 / PGSIZE;
      ObtainIs(Now(), cnt);
      var page := pool.GetMultiple(cnt);
      if page.None? {
        return None;
      }
      arenas := arenas[page.value := Big(cnt)];
      live := live[BigAddr(page.value) := size];
      r := Some(page.value * PGSIZE + HEADER);
    }

    method TakeBlock(d: nat, size: nat) returns (r: Option<nat>)
      requires Ready() && Inv(Now()) && d < DESCS
      modifies this, pool.usedMap.bits
      ensures Ready() && (Now(), r) == MallocSmall(old(Now()), d, size)
    {
      hide Inv, Obtain, Blocks, BlocksPerArena, BlockSize, Marked, Pop, Pool.Valid, SetRange, FirstFit;
      if free[d] == [] {
        ghost var s := Now();
        ObtainIs(s, 1);
        var page := pool.GetMultiple(1);
        if page.None? {
          return None;
        }
        NewArenaFirst(s, page.value, d);
        NewArenaKeeps(s, page.value, d);
        AddArena(page.value, d);
        assert Now() == NewArena(s, page.value, d);
      }
      r := PopFront(d, size);
    }

    /** Takes the descriptor's first free block. */
    method PopFront(d: nat, size: nat) returns (r: Option<nat>)
      requires Ready() && Inv(Now()) && d < DESCS && free[d] != []
      modifies this
      ensures Ready() && Now() == Pop(old(Now()), d, size) && r == Some(old(free)[d][0])
    {
      hide Inv, PageOf;
      PopKeeps(Now(), d, size);
      var b := free[d][0];
      free := free[d := free[d][1..]];
      var p := PageOf(b);
      arenas := arenas[p := Small(d, arenas[p].freeCnt - 1)];
      live := live[b := size];
      r := Some(b);
    }

    /** Takes every block of the arena off the free list; each is there to be taken. */
    method RemoveBlocks(p: nat, d: nat)
      requires Ready() && d < DESCS && StableOrder.Distinct(free[d])
      requires forall b :: b in Blocks(p, d) ==> b in free[d]
      modifies this`free
      ensures Ready() && free == old(free)[d := RemoveAll(old(free)[d], Blocks(p, d))]
    {
      hide BlockSize, BlocksPerArena, Addr, Without, StableOrder.Distinct;
      BlocksDistinct(p, d);
      var i := 0;
      while i < perArena[d]
        invariant i <= BlocksPerArena(d) && |free| == DESCS
        invariant free == old(free)[d := RemoveAll(old(free)[d], Blocks(p, d)[..i])]
      {
        var b: nat := p * PGSIZE + HEADER + i * sizes[d];
        BlockAt(p, d, i);
        assert b in free[d] by { NotBefore(p, d, i); }
        free := free[d := Without<nat>(free[d], b)];
        i := i + 1;
      }
      assert Blocks(p, d)[..i] == Blocks(p, d);
    }

    method Free(b: nat)
      requires Valid() && b in live
      modifies this, pool.usedMap.bits
      ensures Valid() && Now() == BlockHeap.Free(old(Now()), b)
    {
      hide Busy, Push, BlockHeap.Release, DropBig, IsBlock, ArenaOk;
      FreeKeeps(Now(), b);
      var p := PageOf(b);
      assert LiveBlockOk(Now(), b);
      hide Inv;
      match arenas[p]
      case Big(n) => FreePages(b, n);
      case Small(d, c) => FreeBlock(b, d, c);
    }

    method FreePages(b: nat, n: nat)
      requires Ready() && Inv(Now()) && b in live && PageOf(b) in arenas && arenas[PageOf(b)] == Big(n)
      modifies this, pool.usedMap.bits
      ensures Ready()
      ensures old(Held(Now(), PageOf(b), n)) && Now() == DropBig(old(Now()), PageOf(b), n)
    {
      hide Inv, PageOf, BigAddr, SetRange, Pool.Valid;
      var p := PageOf(b);
      DropBigKeeps(Now(), b);
      pool.FreeMultiple(p, n);
      arenas, live := arenas - {p}, live - {b};
    }

    method FreeBlock(b: nat, d: nat, c: int)
      requires Ready() && Inv(Now()) && b in live && PageOf(b) in arenas && arenas[PageOf(b)] == Small(d, c)
      modifies this, pool.usedMap.bits
      ensures Ready() && d < DESCS && old(Held(Now(), PageOf(b), 1))
      ensures Now() == var s1 := Push(old(Now()), b, d);
                       if c + 1 >= BlocksPerArena(d) then BlockHeap.Release(s1, PageOf(b), d) else s1
    {
      hide Inv, PageOf, Blocks, BlocksPerArena, BlockSize, IsBlock, SmallOk, SetRange, Pool.Valid, RemoveAll;
      ghost var s := Now();
      var p := PageOf(b);
      PushKeeps(s, b);
      SmallDesc(s, p);
      free := free[d := [b] + free[d]];
      arenas, live := arenas[p := Small(d, c + 1)], live - {b};
      ghost var s1 := Now();
      assert s1 == Push(s, b, d);
      if c + 1 >= perArena[d] {
        AllFree(s1, p);
        ListsDistinct(s1);
        SmallDesc(s1, p);
        RemoveBlocks(p, d);
        pool.FreeMultiple(p, 1);
        arenas := arenas - {p};
        assert Now() == BlockHeap.Release(s1, p, d);
      }
    }
  }

  lemma BlockAt(p: nat, d: nat, i: nat)
    requires i < BlocksPerArena(d)
    ensures Blocks(p, d)[i] == Addr(p, d, i) == p * PGSIZE + HEADER + i * BlockSize(d)
    ensures Blocks(p, d)[..i + 1] == Blocks(p, d)[..i] + [Addr(p, d, i)]
    ensures Blocks(p, d)[i] in Blocks(p, d)
  {
  }

  lemma NotBefore(p: nat, d: nat, i: nat)
    requires d < DESCS && i < BlocksPerArena(d)
    ensures Blocks(p, d)[i] !in Blocks(p, d)[..i]
  {
    BlocksDistinct(p, d);
  }

  lemma ObtainIs(s: Heap, cnt: nat)
    ensures cnt > 0 ==> var fit := FirstFit(s.used, 0, cnt, false);
                        Obtain(s, cnt) == if fit.Some? then Some(s.base + fit.value) else None
    ensures cnt == 0 ==> Obtain(s, cnt) == None
    ensures var r := Obtain(s, cnt); r.Some? ==> Marked(s, r.value, cnt, true) == SetRange(s.used, r.value - s.base, cnt, true)
  {
  }
}
