/** The page allocator (threads/palloc.c): two pools of pages, each with its bitmap of used pages.
    Pages are named by page number. */
module PageAllocator {
  import opened Options
  import opened Bitmaps
  import opened Vaddr

  function DivRoundUp(x: nat, step: nat): nat
    requires step > 0
  {
    (x + step - 1) / step
  }

  /** bitmap_buf_size: the header and the words of a bitmap of n bits. */
  function BitmapBufSize(n: nat): nat { 8 + 4 * ElemCnt(n) }

  /** The pages a pool hands out: cnt of them, from page number base. */
  datatype Range = Range(base: nat, cnt: nat)

  /** init_pool puts the bitmap in the pool's first pages; None is the panic for want of room. */
  function InitPool(base: nat, cnt: nat): Option<Range> {
    var bmPages := DivRoundUp(BitmapBufSize(cnt), PGSIZE);
    if bmPages > cnt then None else Some(Range(base + bmPages, cnt - bmPages))
  }

  /** page_from_pool. */
  predicate FromPool(pool: Range, page: nat) {
    pool.base <= page < pool.base + pool.cnt
  }

  /** palloc_init: half of the pages, at most userLimit, to the user pool. */
  function KernelPages(freePages: nat, userLimit: nat): nat {
    freePages - UserPages(freePages, userLimit)
  }

  /** As many as the limit and an even split allow. */
  function UserPages(freePages: nat, userLimit: nat): (n: nat)
    ensures n <= userLimit && 2 * n <= freePages && (n == userLimit || freePages < 2 * (n + 1))
  {
    if freePages / 2 > userLimit then userLimit else freePages / 2
  }

  /** No page is in both pools, and each pool's bitmap fits the pages set aside for it and lies before them. */
  lemma PoolsApart(start: nat, freePages: nat, userLimit: nat)
    ensures var k := KernelPages(freePages, userLimit);
            var kernel := InitPool(start, k);
            var user := InitPool(start + k, UserPages(freePages, userLimit));
            kernel.Some? && user.Some? ==>
              && (forall page: nat :: !(FromPool(kernel.value, page) && FromPool(user.value, page)))
              && (forall page: nat :: FromPool(kernel.value, page) ==> start <= page < start + k)
              && (forall page: nat :: FromPool(user.value, page) ==> start + k <= page < start + freePages)
              && BitmapBufSize(kernel.value.cnt) <= (kernel.value.base - start) * PGSIZE
              && BitmapBufSize(user.value.cnt) <= (user.value.base - (start + k)) * PGSIZE
  {
    var k := KernelPages(freePages, userLimit);
    BitmapFits(k);
    BitmapFits(UserPages(freePages, userLimit));
  }

  lemma BitmapFits(cnt: nat)
    ensures var bmPages := DivRoundUp(BitmapBufSize(cnt), PGSIZE);
            bmPages <= cnt ==> BitmapBufSize(cnt - bmPages) <= bmPages * PGSIZE
  {
  }

  class Pool {
    const base: nat
    const usedMap: Bitmap

    ghost predicate Valid()
      reads this, usedMap, usedMap.bits
    {
      usedMap.Valid()
    }

    ghost function Used(): seq<bool>
      reads this, usedMap, usedMap.bits
      requires Valid()
    {
      usedMap.View()
    }

    /** init_pool, for a pool whose bitmap has its pages. */
    constructor (range: Range)
      ensures Valid() && base == range.base && Used() == seq(range.cnt, _ => false)
      ensures fresh(usedMap) && fresh(usedMap.bits)
    {
      base := range.base;
      usedMap := new Bitmap(range.cnt);
    }

    /** palloc_get_multiple: the first run of pageCnt free pages. */
    method GetMultiple(pageCnt: nat) returns (page: Option<nat>)
      requires Valid()
      modifies usedMap.bits
      ensures Valid()
      ensures pageCnt == 0 ==> page == None && Used() == old(Used())
      ensures pageCnt > 0 ==>
                var fit := FirstFit(old(Used()), 0, pageCnt, false);
                if fit.Some? then page == Some(base + fit.value) && Used() == SetRange(old(Used()), fit.value, pageCnt, true)
                else page == None && Used() == old(Used())
    {
      hide FirstFit, SetRange, Bitmap.Valid, Bitmap.View;
      if pageCnt == 0 {
        return None;
      }
      var idx := usedMap.ScanAndFlip(0, pageCnt, false);
      page := if idx.Some? then Some(base + idx.value) else None;
    }

    /** palloc_free_multiple: the pages must be this pool's, and in use. */
    method FreeMultiple(page: nat, pageCnt: nat)
      requires Valid()
      requires pageCnt > 0 ==>
                 base <= page && page + pageCnt <= base + |Used()| && AllEqual(Used(), page - base, pageCnt, true)
      modifies usedMap.bits
      ensures Valid()
      ensures Used() == if pageCnt == 0 then old(Used()) else SetRange(old(Used()), page - base, pageCnt, false)
    {
      if pageCnt == 0 {
        return;
      }
      var idx := page - base;
      var free := usedMap.Contains(idx, pageCnt, false);
      assert !free;
      usedMap.SetMultiple(idx, pageCnt, false);
    }
  }

  /** Giving back what was just obtained restores the bitmap exactly. */
  lemma GetThenFree(used: seq<bool>, cnt: nat)
    requires FirstFit(used, 0, cnt, false).Some?
    ensures var i := FirstFit(used, 0, cnt, false).value;
            SetRange(SetRange(used, i, cnt, true), i, cnt, false) == used
  {
    var i := FirstFit(used, 0, cnt, false).value;
    var back := SetRange(SetRange(used, i, cnt, true), i, cnt, false);
    assert AllEqual(used, i, cnt, false);
    assert forall k :: 0 <= k < |used| ==> back[k] == used[k];
  }
}
