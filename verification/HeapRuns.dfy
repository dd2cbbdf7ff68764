/** What callers of malloc and free may rely on, over every run. */
module HeapRuns {
  import opened Options
  import opened Bitmaps
  import opened BlockLayout
  import opened BlockHeap
  import opened Vaddr
  import opened IntegerDivision

  // ----- blocks are apart

  /** The bytes a live block may use. */
  function Extent(s: Heap, a: nat): int {
    if PageOf(a) !in s.arenas then 0
    else
      match s.arenas[PageOf(a)]
      case Small(d, _) => BlockSize(d)
      case Big(n) => n * PGSIZE - HEADER
  }

  /** A live block lies in its arena, after the header. */
  lemma ExtentInside(s: Heap, a: nat)
    requires Inv(s) && a in s.live
    ensures var p := PageOf(a);
            && p in s.arenas && p * PGSIZE + HEADER <= a && 0 < Extent(s, a)
            && a + Extent(s, a) <= (p + Span(s.arenas[p])) * PGSIZE
  {
    hide PageOf, IsBlock, SmallOk, BlockSize, BlocksPerArena, IdxOf, FreeListOk, ArenasApart;
    var p := PageOf(a);
    assert LiveBlockOk(s, a) && ArenaOk(s, p);
    match s.arenas[p]
    case Small(d, _) =>
      SmallDesc(s, p);
      BlockExtent(a, d);
    case Big(n) =>
  }

  /** Two live blocks never overlap. */
  lemma LiveApart(s: Heap, a: nat, b: nat)
    requires Inv(s) && a in s.live && b in s.live && a < b
    ensures a + Extent(s, a) <= b
  {
    hide IsBlock, SmallOk, BlockSize, BlocksPerArena, FreeListOk, ArenaOk;
    ExtentInside(s, a);
    ExtentInside(s, b);
    assert LiveBlockOk(s, a) && LiveBlockOk(s, b);
    var p: nat, q: nat := PageOf(a), PageOf(b);
    if p == q {
      if s.arenas[p].Small? {
        SmallDesc(s, p);
        BlocksApart(a, b, s.arenas[p].desc);
      }
    } else {
      assert p < q;
      MulLeq(p + Span(s.arenas[p]), q, PGSIZE);
    }
  }

  // ----- what one call does for its caller

  /** The block is new, the other live blocks stay as they were, and it is large enough exactly when the request leaves
      room for the arena header in 32 bits. */
  lemma MallocGives(s: Heap, size: nat)
    requires Quiet(s) && 0 < size < W32 && Malloc(s, size).1.Some?
    ensures var (t, r) := Malloc(s, size);
            && r.value !in s.live && t.live == s.live[r.value := size]
            && (Extent(t, r.value) >= size <==> size <= W32 - HEADER)
            && forall b :: b in s.live ==> Extent(t, b) == Extent(s, b)
  {
    hide PageOf, IsBlock, Inv, Obtain, BlocksPerArena, BlockSize, Blocks, Marked, PageCnt, BigAddr, ArenaOk, SmallOk;
    var d := FindDesc(size, 0);
    if d == DESCS {
      var p := Obtain(s, PageCnt(size)).value;
      TakeBigKeeps(s, p, PageCnt(size), size);
      BigAddrPage(p);
      PageCntEnough(size);
      LivePages(s);
    } else {
      SizeTable(d);
      LivePages(s);
      if s.free[d] != [] {
        PopKeeps(s, d, size);
      } else {
        var p := Obtain(s, 1).value;
        NewArenaKeeps(s, p, d);
        NewArenaFirst(s, p, d);
        PopKeeps(NewArena(s, p, d), d, size);
      }
    }
  }

  /** d is the descriptor of the smallest blocks that hold size bytes. */
  predicate Smallest(size: nat, d: nat) {
    && d < DESCS && BlockSize(d) >= size
    && forall e :: 0 <= e < d ==> BlockSize(e) < size
  }

  predicate FreePage(used: seq<bool>) {
    exists i :: 0 <= i < |used| && !used[i]
  }

  /** Some cnt consecutive pages are free. */
  ghost predicate FreeRun(used: seq<bool>, cnt: nat) {
    exists i: nat :: i + cnt <= |used| && AllEqual(used, i, cnt, false)
  }

  /** The requests of up to 1024 bytes are those some block size holds, and only one block size is the smallest. */
  lemma SmallestExists(size: nat)
    ensures size <= 1024 <==> exists d :: Smallest(size, d)
    ensures size <= 1024 <==> Smallest(size, FindDesc(size, 0))
    ensures forall d, e :: Smallest(size, d) && Smallest(size, e) ==> d == e
  {
    hide BlockSize;
    SizeTable(6);
    forall d | 0 <= d < DESCS ensures BlockSize(d) <= 1024 {
      SizeTable(d);
    }
    var d := FindDesc(size, 0);
    assert size <= 1024 ==> Smallest(size, d);
  }

  /** Pages are obtained exactly when that many consecutive ones are free. */
  lemma ObtainIff(s: Heap, cnt: nat)
    ensures Obtain(s, cnt).Some? <==> cnt > 0 && FreeRun(s.used, cnt)
    ensures FreeRun(s.used, 1) <==> FreePage(s.used)
  {
    hide AllEqual;
    if FreePage(s.used) {
      var i: nat :| i < |s.used| && !s.used[i];
      OnePage(s.used, i);
    }
    if FreeRun(s.used, 1) {
      var i: nat :| i + 1 <= |s.used| && AllEqual(s.used, i, 1, false);
      OnePage(s.used, i);
    }
  }

  lemma OnePage(used: seq<bool>, i: nat)
    requires i < |used|
    ensures AllEqual(used, i, 1, false) <==> !used[i]
  {
    assert used[i] == used[i + 0];
  }

  /** A request that fits a block succeeds exactly when a block of the smallest size that holds it is on the free list
      or a page can be had for a new arena. The block handed out has that size. It is the first of the list, or the
      first of an arena in a page that was free. */
  lemma MallocSmallIff(s: Heap, size: nat, d: nat)
    requires Quiet(s) && 0 < size && Smallest(size, d)
    ensures var (t, r) := Malloc(s, size);
            && (r.Some? <==> s.free[d] != [] || FreePage(s.used))
            && (r.Some? ==> Extent(t, r.value) == BlockSize(d))
            && (r.Some? && s.free[d] != [] ==> r.value == s.free[d][0] && t.used == s.used)
            && (r.Some? && s.free[d] == [] ==>
                  exists i :: 0 <= i < |s.used| && !s.used[i] && t.used == s.used[i := true]
                              && r.value == (s.base + i) * PGSIZE + HEADER)
            && (r.None? ==> t == s)
  {
    hide PageOf, IsBlock, Inv, Obtain, BlocksPerArena, BlockSize, Blocks, Marked, ArenaOk, SmallOk;
    SmallestExists(size);
    ObtainIff(s, 1);
    if s.free[d] != [] {
      PopKeeps(s, d, size);
    } else if Obtain(s, 1).Some? {
      var p := Obtain(s, 1).value;
      NewArenaKeeps(s, p, d);
      NewArenaFirst(s, p, d);
      PopKeeps(NewArena(s, p, d), d, size);
      assert !s.used[p - s.base] && Malloc(s, size).0.used == s.used[p - s.base := true];
    }
  }

  /** A larger request succeeds exactly when its page count does not wrap to 0 and that many consecutive pages are
      free; the block is the rest of those pages after the header, and the free lists stay. */
  lemma MallocBigIff(s: Heap, size: nat)
    requires Quiet(s) && 1024 < size < W32
    ensures var (t, r) := Malloc(s, size);
            && (r.Some? <==> PageCnt(size) > 0 && FreeRun(s.used, PageCnt(size)))
            && (PageCnt(size) > 0 <==> size <= W32 - HEADER - PGSIZE || size > W32 - HEADER)
            && (r.Some? ==> Extent(t, r.value) == PageCnt(size) * PGSIZE - HEADER && t.free == s.free)
            && (r.Some? ==>
                  exists i: nat :: i + PageCnt(size) <= |s.used| && AllEqual(s.used, i, PageCnt(size), false)
                                   && t.used == SetRange(s.used, i, PageCnt(size), true)
                                   && r.value == (s.base + i) * PGSIZE + HEADER)
            && (r.None? ==> t == s)
  {
    hide PageOf, IsBlock, Inv, Obtain, BlocksPerArena, BlockSize, Blocks, Marked, ArenaOk, SmallOk, PageCnt;
    SmallestExists(size);
    ObtainIff(s, PageCnt(size));
    PageCntZero(size);
    if Obtain(s, PageCnt(size)).Some? {
      var p := Obtain(s, PageCnt(size)).value;
      BigAddrPage(p);
      assert AllEqual(s.used, p - s.base, PageCnt(size), false);
      assert Malloc(s, size).0.used == SetRange(s.used, p - s.base, PageCnt(size), true);
    }
  }

  lemma LivePages(s: Heap)
    requires Inv(s)
    ensures forall a :: a in s.live ==> PageOf(a) in s.arenas
  {
    assert forall a :: a in s.live ==> LiveBlockOk(s, a);
  }

  /** free undoes malloc exactly: the page map, the arenas and the free lists are what they were. */
  lemma FreeUndoesMalloc(s: Heap, size: nat)
    requires Quiet(s) && Malloc(s, size).1.Some?
    ensures var (t, r) := Malloc(s, size); Inv(t) && r.value in t.live && Free(t, r.value) == s
  {
    hide PageOf, IsBlock, Inv, Obtain, BlocksPerArena, BlockSize, Blocks, PageCnt, BigAddr, ArenaOk, SmallOk;
    MallocKeeps(s, size);
    var d := FindDesc(size, 0);
    if d == DESCS {
      var p := Obtain(s, PageCnt(size)).value;
      BigUndone(s, p, PageCnt(size), size);
    } else if s.free[d] != [] {
      PopUndone(s, d, size);
    } else {
      var p := Obtain(s, 1).value;
      ArenaUndone(s, p, d, size);
    }
  }

  lemma BigUndone(s: Heap, p: nat, cnt: nat, size: nat)
    requires Inv(s) && Obtain(s, cnt) == Some(p)
    ensures var t := TakeBig(s, p, cnt, size); Inv(t) && BigAddr(p) in t.live && Free(t, BigAddr(p)) == s
  {
    hide PageOf, IsBlock, Inv, Obtain, BigAddr, ArenaOk, SmallOk, Marked;
    TakeBigKeeps(s, p, cnt, size);
    BigAddrPage(p);
    var t := TakeBig(s, p, cnt, size);
    var u := Free(t, BigAddr(p));
    assert u.used == s.used && u.arenas == s.arenas && u.live == s.live;
  }

  lemma PopUndone(s: Heap, d: nat, size: nat)
    requires Quiet(s) && d < DESCS && s.free[d] != []
    ensures var t := Pop(s, d, size); var a := s.free[d][0]; Inv(t) && a in t.live && Free(t, a) == s
  {
    hide PageOf, IsBlock, Inv, BigAddr, ArenaOk, SmallOk, BlocksPerArena;
    PopKeeps(s, d, size);
    var a, t := s.free[d][0], Pop(s, d, size);
    var u := Free(t, a);
    assert u.free[d] == s.free[d];
    assert u.free == s.free && u.arenas == s.arenas && u.live == s.live;
  }

  lemma SomeIn(list: seq<nat>)
    ensures list == [] || exists x :: x in list
  {
    if list != [] {
      assert list[0] in list;
    }
  }

  lemma ArenaUndone(s: Heap, p: nat, d: nat, size: nat)
    requires Inv(s) && d < DESCS && Obtain(s, 1) == Some(p) && s.free[d] == []
    ensures var s1 := NewArena(s, p, d);
            && s1.free[d] != []
            && var t := Pop(s1, d, size); var a := s1.free[d][0]; Inv(t) && a in t.live && Free(t, a) == s
  {
    hide PageOf, IsBlock, Inv, BigAddr, ArenaOk, SmallOk, BlocksPerArena, Obtain, Blocks, Marked, RemoveAll;
    NewArenaKeeps(s, p, d);
    NewArenaFirst(s, p, d);
    UnusedApart(s, p, 1);
    var s1 := NewArena(s, p, d);
    PopKeeps(s1, d, size);
    var a, t := s1.free[d][0], Pop(s1, d, size);
    assert t.live[a] == size && t.arenas[p] == Small(d, BlocksPerArena(d) - 1);
    var s2 := Push(t, a, d);
    assert s2.free[d] == Blocks(p, d);
    var u := Free(t, a);
    SomeIn(RemoveAll(Blocks(p, d), Blocks(p, d)));
    assert u.free == s.free && u.arenas == s.arenas && u.live == s.live && u.used == s.used;
  }

  /** When nothing is live, malloc holds no page and no free block. */
  lemma AllReturned(s: Heap)
    requires Quiet(s) && s.live == map[]
    ensures s.arenas == map[] && forall d :: 0 <= d < DESCS ==> s.free[d] == []
  {
    hide PageOf, IsBlock, BigAddr, Addr, BlocksPerArena, Held, ArenasApart;
    forall p | p in s.arenas ensures false {
      assert ArenaOk(s, p);
      if s.arenas[p].Small? {
        var d := s.arenas[p].desc;
        CountAll(s.free[d], p, d, BlocksPerArena(d));
      }
    }
    forall d | 0 <= d < DESCS ensures s.free[d] == [] {
      FreeListIs(s, d);
      SomeIn(s.free[d]);
    }
  }

  // ----- pages

  predicate Covers(arenas: map<nat, Arena>, p: nat, page: nat) {
    p in arenas && p <= page < p + Span(arenas[p])
  }

  /** A page in use that is no arena's: some other part of the kernel holds it. */
  ghost predicate HeldByOthers(s: Heap, page: nat) {
    && s.base <= page < s.base + |s.used| && s.used[page - s.base]
    && !exists p :: Covers(s.arenas, p, page)
  }

  ghost predicate SameOthers(s: Heap, t: Heap) {
    forall page: nat :: HeldByOthers(s, page) <==> HeldByOthers(t, page)
  }

  /** An arena in pages that were not in use ... */
  lemma OthersAdd(s: Heap, t: Heap, p: nat)
    requires p !in s.arenas && p in t.arenas && t.arenas == s.arenas[p := t.arenas[p]]
    requires Obtain(s, Span(t.arenas[p])) == Some(p)
    requires t.base == s.base && t.used == Marked(s, p, Span(t.arenas[p]), true)
    ensures SameOthers(s, t)
  {
    hide Obtain, Marked;
    forall page: nat ensures HeldByOthers(s, page) <==> HeldByOthers(t, page) {
      assert forall q :: q != p ==> (Covers(s.arenas, q, page) <==> Covers(t.arenas, q, page));
      if Covers(t.arenas, p, page) {
        assert !s.used[page - s.base];
      }
    }
  }

  /** ... an arena whose span does not change ... */
  lemma OthersUpdate(s: Heap, t: Heap, p: nat)
    requires p in s.arenas && p in t.arenas && t.arenas == s.arenas[p := t.arenas[p]]
    requires Span(t.arenas[p]) == Span(s.arenas[p]) && t.base == s.base && t.used == s.used
    ensures SameOthers(s, t)
  {
    forall page: nat ensures HeldByOthers(s, page) <==> HeldByOthers(t, page) {
      assert forall q :: Covers(s.arenas, q, page) <==> Covers(t.arenas, q, page);
    }
  }

  /** ... and an arena given back leave alone the pages that others hold. */
  lemma OthersRemove(s: Heap, t: Heap, p: nat)
    requires p in s.arenas && t.arenas == s.arenas - {p} && Held(s, p, Span(s.arenas[p]))
    requires t.base == s.base && t.used == Marked(s, p, Span(s.arenas[p]), false)
    ensures SameOthers(s, t)
  {
    hide Marked;
    forall page: nat ensures HeldByOthers(s, page) <==> HeldByOthers(t, page) {
      assert forall q :: q != p ==> (Covers(s.arenas, q, page) <==> Covers(t.arenas, q, page));
      if Covers(s.arenas, p, page) {
        assert !t.used[page - s.base];
      }
    }
  }

  lemma MallocSameOthers(s: Heap, size: nat)
    requires Quiet(s)
    ensures SameOthers(s, Malloc(s, size).0)
  {
    hide PageOf, IsBlock, Inv, Obtain, BlocksPerArena, Blocks, Marked, PageCnt, HeldByOthers;
    var t, d := Malloc(s, size).0, FindDesc(size, 0);
    if size == 0 {
    } else if d == DESCS {
      var p := Obtain(s, PageCnt(size));
      if p.Some? {
        TakeBigKeeps(s, p.value, PageCnt(size), size);
        OthersAdd(s, t, p.value);
      }
    } else if s.free[d] != [] {
      PopKeeps(s, d, size);
      OthersUpdate(s, t, PageOf(s.free[d][0]));
    } else {
      var p := Obtain(s, 1);
      if p.Some? {
        NewArenaKeeps(s, p.value, d);
        NewArenaFirst(s, p.value, d);
        var s1 := NewArena(s, p.value, d);
        OthersAdd(s, s1, p.value);
        OthersUpdate(s1, t, p.value);
      }
    }
  }

  lemma FreeSameOthers(s: Heap, a: nat)
    requires Quiet(s) && a in s.live
    ensures SameOthers(s, Free(s, a))
  {
    hide PageOf, IsBlock, BlocksPerArena, Blocks, Marked, HeldByOthers;
    var p := PageOf(a);
    assert LiveBlockOk(s, a);
    hide Inv;
    if s.arenas[p].Big? {
      DropBigKeeps(s, a);
      OthersRemove(s, Free(s, a), p);
    } else {
      PushKeeps(s, a);
      SmallDesc(s, p);
      var s1 := Push(s, a, s.arenas[p].desc);
      OthersUpdate(s, s1, p);
      if s1.arenas[p].freeCnt >= BlocksPerArena(s.arenas[p].desc) {
        ReleaseKeeps(s1, p);
        OthersRemove(s1, Free(s, a), p);
      }
    }
  }

  // ----- runs

  /** The calls, and the pages that the rest of the kernel takes and returns. */
  datatype Action = Allocate(size: nat) | Release(block: nat) | PagesTaken(cnt: nat) | PagesReturned(page: nat, cnt: nat)

  ghost predicate Enabled(s: Heap, act: Action) {
    match act
    case Allocate(size) => size < W32
    case Release(block) => block in s.live
    case PagesTaken(cnt) => Obtain(s, cnt).Some?
    case PagesReturned(page, cnt) =>
      && s.base <= page && page + cnt <= s.base + |s.used|
      && forall q: nat :: page <= q < page + cnt ==> HeldByOthers(s, q)
  }

  ghost function Next(s: Heap, act: Action): Heap
    requires Quiet(s) && Enabled(s, act)
  {
    match act
    case Allocate(size) => Malloc(s, size).0
    case Release(block) => Free(s, block)
    case PagesTaken(cnt) => s.(used := Marked(s, Obtain(s, cnt).value, cnt, true))
    case PagesReturned(page, cnt) => s.(used := Marked(s, page, cnt, false))
  }

  lemma PagesKeep(s: Heap, t: Heap)
    requires Quiet(s) && t == s.(used := t.used)
    requires forall p :: p in s.arenas ==> Held(t, p, Span(s.arenas[p]))
    ensures Quiet(t)
  {
    hide PageOf, IsBlock, BlocksPerArena, Held;
    forall p | p in t.arenas ensures ArenaOk(t, p) {
      assert ArenaOk(s, p);
      assert s.arenas[p].Small? ==> SmallOk(t, p, s.arenas[p].desc, s.arenas[p].freeCnt);
    }
    forall d | 0 <= d < DESCS ensures FreeListOk(t, d) {
      FreeListIs(s, d);
    }
    assert forall a :: a in s.live ==> LiveBlockOk(s, a);
  }

  lemma ReturnedElsewhere(s: Heap, page: nat, cnt: nat)
    requires Inv(s) && Enabled(s, PagesReturned(page, cnt))
    ensures forall p :: p in s.arenas ==> Held(s.(used := Marked(s, page, cnt, false)), p, Span(s.arenas[p]))
  {
    hide SmallOk, FreeListOk, LiveBlockOk, Marked;
    var t := s.(used := Marked(s, page, cnt, false));
    forall p | p in s.arenas ensures Held(t, p, Span(s.arenas[p])) {
      assert ArenaOk(s, p);
      forall i | p - s.base <= i < p - s.base + Span(s.arenas[p]) ensures t.used[i] {
        assert Covers(s.arenas, p, s.base + i);
        assert !HeldByOthers(s, s.base + i);
      }
    }
  }

  lemma NextKeeps(s: Heap, act: Action)
    requires Quiet(s) && Enabled(s, act)
    ensures Quiet(Next(s, act))
  {
    hide Malloc, Free, Inv, Busy, Obtain, Marked, Held, HeldByOthers;
    match act
    case Allocate(size) => MallocKeeps(s, size);
    case Release(block) => FreeKeeps(s, block);
    case PagesTaken(cnt) =>
      MarkedElsewhere(s, Next(s, act), Obtain(s, cnt).value, cnt);
      PagesKeep(s, Next(s, act));
    case PagesReturned(page, cnt) =>
      ReturnedElsewhere(s, page, cnt);
      PagesKeep(s, Next(s, act));
  }

  ghost function After(s: Heap, run: seq<Action>): (r: Option<Heap>)
    requires Quiet(s)
    ensures r.Some? ==> Quiet(r.value)
    decreases |run|
  {
    if run == [] then Some(s)
    else if !Enabled(s, run[0]) then None
    else
      NextKeeps(s, run[0]);
      After(Next(s, run[0]), run[1..])
  }

  /** Every live block can hold what was asked for. */
  ghost predicate Fits(s: Heap) {
    forall a :: a in s.live ==> s.live[a] <= Extent(s, a)
  }

  lemma FreeFits(s: Heap, a: nat)
    requires Quiet(s) && a in s.live && Fits(s)
    ensures Fits(Free(s, a))
  {
    hide IsBlock, BlocksPerArena, Blocks, Marked, SmallOk, PageOf, BigAddr;
    var p, t := PageOf(a), Free(s, a);
    assert forall x :: x in s.live ==> LiveBlockOk(s, x);
    assert ArenaOk(s, p);
    hide Inv;
    if s.arenas[p].Big? {
      DropBigKeeps(s, a);
      BigAlone(s, a);
    } else {
      PushKeeps(s, a);
      SmallDesc(s, p);
      var s1 := Push(s, a, s.arenas[p].desc);
      if s1.arenas[p].freeCnt >= BlocksPerArena(s.arenas[p].desc) {
        AllFree(s1, p);
      }
    }
  }

  lemma {:induction false} RunFits(s: Heap, run: seq<Action>)
    requires Quiet(s) && Fits(s) && After(s, run).Some?
    requires forall i :: 0 <= i < |run| && run[i].Allocate? ==> run[i].size <= W32 - HEADER
    ensures Fits(After(s, run).value)
    decreases |run|
  {
    hide Inv, Busy, Malloc, Free, Obtain, Marked;
    if run != [] {
      var t := Next(s, run[0]);
      NextKeeps(s, run[0]);
      assert Fits(t) by {
        match run[0]
        case Allocate(size) =>
          if size > 0 && Malloc(s, size).1.Some? {
            MallocGives(s, size);
          } else {
            MallocNone(s, size);
          }
        case Release(block) => FreeFits(s, block);
        case PagesTaken(cnt) =>
        case PagesReturned(page, cnt) =>
      }
      RunFits(t, run[1..]);
    }
  }

  lemma MallocNone(s: Heap, size: nat)
    requires Quiet(s) && (size == 0 || Malloc(s, size).1.None?)
    ensures Malloc(s, size).0 == s
  {
  }

  /** In a run of malloc and free alone, the others' pages are theirs throughout; so a run from nothing live to nothing
      live leaves the page map as it found it. */
  lemma {:induction false} RunSameOthers(s: Heap, run: seq<Action>)
    requires Quiet(s) && After(s, run).Some?
    requires forall i :: 0 <= i < |run| ==> run[i].Allocate? || run[i].Release?
    ensures SameOthers(s, After(s, run).value)
    ensures var t := After(s, run).value; t.base == s.base && |t.used| == |s.used|
    decreases |run|
  {
    hide Inv, Busy, Obtain, Marked, HeldByOthers, PageOf, FindDesc, Blocks;
    if run != [] {
      var t := Next(s, run[0]);
      NextKeeps(s, run[0]);
      match run[0] {
        case Allocate(size) => MallocSameOthers(s, size);
        case Release(block) => FreeSameOthers(s, block);
      }
      RunSameOthers(t, run[1..]);
    }
  }

  lemma RunConserves(s: Heap, run: seq<Action>)
    requires Quiet(s) && After(s, run).Some?
    requires forall i :: 0 <= i < |run| ==> run[i].Allocate? || run[i].Release?
    requires s.live == map[] && After(s, run).value.live == map[]
    ensures After(s, run).value == s
  {
    hide Inv, Busy, After;
    var t := After(s, run).value;
    RunSameOthers(s, run);
    AllReturned(s);
    AllReturned(t);
    QuietFree(s);
    QuietFree(t);
    forall i | 0 <= i < |s.used| ensures t.used[i] == s.used[i] {
      assert HeldByOthers(s, s.base + i) <==> HeldByOthers(t, s.base + i);
    }
    assert t.free == s.free;
  }

  lemma QuietFree(s: Heap)
    requires Quiet(s)
    ensures |s.free| == DESCS
  {
  }
}
