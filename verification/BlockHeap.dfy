/** malloc and free (threads/malloc.c) over the kernel page pool: the state, what each call does to it, and what every
    call keeps. An arena is named by its page number, a block by its address. `live` records the blocks handed out and
    not yet freed, with the sizes asked for. */
module BlockHeap {
  import opened Options
  import opened Bitmaps
  import opened BlockLayout
  import StableOrder
  import opened Lists

  datatype Arena = Small(desc: nat, freeCnt: int) | Big(pages: nat)

  datatype Heap = Heap(base: nat, used: seq<bool>, arenas: map<nat, Arena>, free: seq<seq<nat>>, live: map<nat, nat>)

  function Span(a: Arena): nat {
    match a case Small(_, _) => 1 case Big(n) => n
  }

  /** How many of an arena's first n blocks are on a free list. */
  function CountFree(list: seq<nat>, page: nat, d: nat, n: nat): (c: nat)
    ensures c <= n
  {
    if n == 0 then 0 else CountFree(list, page, d, n - 1) + (if Addr(page, d, n - 1) in list then 1 else 0)
  }

  /** All the blocks of an arena, in address order. */
  function Blocks(page: nat, d: nat): (s: seq<nat>)
    ensures |s| == BlocksPerArena(d)
  {
    seq(BlocksPerArena(d), i requires 0 <= i < BlocksPerArena(d) => Addr(page, d, i))
  }

  // ----- the invariant

  predicate Held(s: Heap, page: nat, cnt: nat)
    ensures Held(s, page, cnt) ==> s.base <= page && page + cnt <= s.base + |s.used|
  {
    && s.base <= page && page + cnt <= s.base + |s.used|
    && forall i :: page - s.base <= i < page - s.base + cnt ==> s.used[i]
  }

  ghost predicate SmallOk(s: Heap, p: nat, d: nat, c: int) {
    && d < DESCS && |s.free| == DESCS
    && c == CountFree(s.free[d], p, d, BlocksPerArena(d))
    && forall i :: 0 <= i < BlocksPerArena(d) ==> Addr(p, d, i) in s.free[d] || Addr(p, d, i) in s.live
  }

  ghost predicate ArenaOk(s: Heap, p: nat) {
    && p in s.arenas
    && Held(s, p, Span(s.arenas[p]))
    && match s.arenas[p]
       case Small(d, c) => SmallOk(s, p, d, c)
       case Big(n) => n > 0 && BigAddr(p) in s.live
  }

  predicate ArenasApart(arenas: map<nat, Arena>) {
    forall p, q :: p in arenas && q in arenas && p < q ==> p + Span(arenas[p]) <= q
  }

  predicate FreeBlockOk(s: Heap, d: nat, a: nat) {
    IsBlock(a, d) && PageOf(a) in s.arenas && s.arenas[PageOf(a)].Small? && s.arenas[PageOf(a)].desc == d && a !in s.live
  }

  ghost predicate FreeListOk(s: Heap, d: nat)
    requires d < |s.free|
  {
    StableOrder.Distinct(s.free[d]) && forall a :: a in s.free[d] ==> FreeBlockOk(s, d, a)
  }

  predicate LiveBlockOk(s: Heap, a: nat) {
    && PageOf(a) in s.arenas
    && match s.arenas[PageOf(a)]
       case Small(d, _) => IsBlock(a, d)
       case Big(_) => a == BigAddr(PageOf(a))
  }

  ghost predicate Inv(s: Heap)
    ensures Inv(s) ==> |s.free| == DESCS
  {
    && |s.free| == DESCS
    && ArenasApart(s.arenas)
    && (forall p :: p in s.arenas ==> ArenaOk(s, p))
    && (forall d :: 0 <= d < DESCS ==> FreeListOk(s, d))
    && (forall a :: a in s.live ==> LiveBlockOk(s, a))
  }

  /** No arena is wholly free. */
  predicate Busy(s: Heap) {
    forall p :: p in s.arenas ==>
      s.arenas[p].Small? ==> s.arenas[p].freeCnt < BlocksPerArena(s.arenas[p].desc)
  }

  // ----- the operations

  /** palloc_get_multiple. */
  ghost function Obtain(s: Heap, cnt: nat): (r: Option<nat>)
    ensures r.Some? ==> cnt > 0 && s.base <= r.value && r.value + cnt <= s.base + |s.used|
    ensures r.Some? ==> forall i :: r.value - s.base <= i < r.value - s.base + cnt ==> !s.used[i]
  {
    if cnt == 0 then None
    else
      var fit := FirstFit(s.used, 0, cnt, false);
      if fit.Some? then Some(s.base + fit.value) else None
  }

  function Marked(s: Heap, page: nat, cnt: nat, value: bool): (r: seq<bool>)
    requires s.base <= page && page + cnt <= s.base + |s.used|
    ensures |r| == |s.used|
    ensures forall i :: 0 <= i < |r| ==>
              r[i] == if page - s.base <= i < page - s.base + cnt then value else s.used[i]
  {
    SetRange(s.used, page - s.base, cnt, value)
  }

  function TakeBig(s: Heap, p: nat, cnt: nat, size: nat): Heap
    requires s.base <= p && p + cnt <= s.base + |s.used|
  {
    s.(used := Marked(s, p, cnt, true), arenas := s.arenas[p := Big(cnt)], live := s.live[BigAddr(p) := size])
  }

  /** A new arena whose blocks all join the end of the free list. */
  function NewArena(s: Heap, p: nat, d: nat): Heap
    requires s.base <= p < s.base + |s.used| && d < |s.free|
  {
    s.(used := Marked(s, p, 1, true), arenas := s.arenas[p := Small(d, BlocksPerArena(d))],
       free := s.free[d := s.free[d] + Blocks(p, d)])
  }

  function FreeCnt(s: Heap, p: nat): int {
    if p in s.arenas && s.arenas[p].Small? then s.arenas[p].freeCnt else 0
  }

  /** The descriptor's first free block is handed out. */
  function Pop(s: Heap, d: nat, size: nat): Heap
    requires d < |s.free| && s.free[d] != []
  {
    var a := s.free[d][0];
    var p := PageOf(a);
    s.(free := s.free[d := s.free[d][1..]], live := s.live[a := size],
       arenas := s.arenas[p := Small(d, FreeCnt(s, p) - 1)])
  }

  ghost function MallocBig(s: Heap, size: nat): (Heap, Option<nat>) {
    var p := Obtain(s, PageCnt(size));
    if p.None? then (s, None) else (TakeBig(s, p.value, PageCnt(size), size), Some(BigAddr(p.value)))
  }

  ghost function MallocSmall(s: Heap, d: nat, size: nat): (Heap, Option<nat>)
    requires d < DESCS == |s.free|
  {
    if s.free[d] != [] then (Pop(s, d, size), Some(s.free[d][0]))
    else
      var p := Obtain(s, 1);
      if p.None? then (s, None)
      else
        SizeTable(d);
        var s1 := NewArena(s, p.value, d);
        (Pop(s1, d, size), Some(s1.free[d][0]))
  }

  ghost function Malloc(s: Heap, size: nat): (Heap, Option<nat>)
    requires |s.free| == DESCS
  {
    if size == 0 then (s, None)
    else
      var d := FindDesc(size, 0);
      if d == DESCS then MallocBig(s, size) else MallocSmall(s, d, size)
  }

  /** A small block goes to the front of its free list. */
  function Push(s: Heap, a: nat, d: nat): Heap
    requires d < |s.free|
  {
    var p := PageOf(a);
    s.(free := s.free[d := [a] + s.free[d]], live := s.live - {a}, arenas := s.arenas[p := Small(d, FreeCnt(s, p) + 1)])
  }

  function RemoveAll(list: seq<nat>, blocks: seq<nat>): (r: seq<nat>)
    ensures forall x :: x in r <==> x in list && x !in blocks
    ensures StableOrder.Distinct(list) ==> StableOrder.Distinct(r)
    decreases |blocks|
  {
    if blocks == [] then list
    else Without<nat>(RemoveAll(list, blocks[..|blocks| - 1]), blocks[|blocks| - 1])
  }

  /** A wholly free arena gives its page back. */
  function Release(s: Heap, p: nat, d: nat): Heap
    requires s.base <= p < s.base + |s.used| && d < |s.free|
  {
    s.(used := Marked(s, p, 1, false), arenas := s.arenas - {p}, free := s.free[d := RemoveAll(s.free[d], Blocks(p, d))])
  }

  function DropBig(s: Heap, p: nat, cnt: nat): Heap
    requires s.base <= p && p + cnt <= s.base + |s.used|
  {
    s.(used := Marked(s, p, cnt, false), arenas := s.arenas - {p}, live := s.live - {BigAddr(p)})
  }

  ghost function Free(s: Heap, a: nat): Heap
    requires Inv(s) && a in s.live
  {
    var p := PageOf(a);
    assert LiveBlockOk(s, a) && ArenaOk(s, p);
    match s.arenas[p]
    case Big(n) => DropBig(s, p, n)
    case Small(d, c) =>
      var s1 := Push(s, a, d);
      if c + 1 >= BlocksPerArena(d) then Release(s1, p, d) else s1
  }

  // ----- counting

  lemma {:induction false} CountSame(l1: seq<nat>, l2: seq<nat>, page: nat, d: nat, n: nat)
    requires d < DESCS && n <= BlocksPerArena(d)
    requires forall a: nat :: PageOf(a) == page ==> (a in l1 <==> a in l2)
    ensures CountFree(l1, page, d, n) == CountFree(l2, page, d, n)
  {
    hide Addr, PageOf;
    if n > 0 {
      AddrIsBlock(page, d, n - 1);
      CountSame(l1, l2, page, d, n - 1);
    }
  }

  lemma {:induction false} CountAll(list: seq<nat>, page: nat, d: nat, n: nat)
    requires forall i :: 0 <= i < n ==> Addr(page, d, i) in list
    ensures CountFree(list, page, d, n) == n
  {
    if n > 0 {
      CountAll(list, page, d, n - 1);
    }
  }

  lemma {:induction false} CountFull(list: seq<nat>, page: nat, d: nat, n: nat, i: nat)
    requires CountFree(list, page, d, n) >= n && i < n
    ensures Addr(page, d, i) in list
  {
    if i < n - 1 {
      CountFull(list, page, d, n - 1, i);
    }
  }

  lemma {:induction false} CountAdd(l1: seq<nat>, l2: seq<nat>, page: nat, d: nat, n: nat, a: nat)
    requires d < DESCS && n <= BlocksPerArena(d)
    requires IsBlock(a, d) && PageOf(a) == page
    requires a !in l1 && forall x :: x in l2 <==> x in l1 || x == a
    ensures CountFree(l2, page, d, n) == CountFree(l1, page, d, n) + if IdxOf(a, d) < n then 1 else 0
  {
    hide Addr, PageOf, IsBlock, IdxOf;
    BlockIsAddr(a, d);
    if n > 0 {
      AddrIsBlock(page, d, n - 1);
      CountAdd(l1, l2, page, d, n - 1, a);
    }
  }

  // ----- every operation changes the blocks of one page

  ghost predicate SameFree(s: Heap, t: Heap, a: nat)
    requires |s.free| == |t.free| == DESCS
  {
    forall d :: 0 <= d < DESCS ==> (a in s.free[d] <==> a in t.free[d])
  }

  ghost predicate SameArena(s: Heap, t: Heap, q: nat) {
    && (q in s.arenas <==> q in t.arenas)
    && (q in s.arenas ==> t.arenas[q] == s.arenas[q] && Held(t, q, Span(t.arenas[q])))
  }

  /** Away from page p, t is like s. */
  ghost predicate Elsewhere(s: Heap, t: Heap, p: nat)
    requires |s.free| == |t.free| == DESCS
  {
    && (forall q: nat :: q != p ==> SameArena(s, t, q))
    && (forall a: nat :: PageOf(a) != p ==> (a in s.live <==> a in t.live) && SameFree(s, t, a))
  }

  /** What the invariant says of page p. */
  ghost predicate PageOk(t: Heap, p: nat)
    requires |t.free| == DESCS
  {
    && (p in t.arenas ==> ArenaOk(t, p))
    && (forall a :: a in t.live && PageOf(a) == p ==> LiveBlockOk(t, a))
    && (forall d :: 0 <= d < DESCS ==> forall a :: a in t.free[d] && PageOf(a) == p ==> FreeBlockOk(t, d, a))
  }

  lemma ArenaKept(s: Heap, t: Heap, p: nat, q: nat)
    requires |s.free| == |t.free| == DESCS && q != p
    requires ArenaOk(s, q) && Elsewhere(s, t, p)
    ensures ArenaOk(t, q)
  {
    hide PageOf, Addr, BigAddr, IsBlock, BlocksPerArena;
    assert SameArena(s, t, q);
    match s.arenas[q]
    case Small(d, c) =>
      forall a: nat | PageOf(a) == q ensures a in s.free[d] <==> a in t.free[d] {
        assert SameFree(s, t, a);
      }
      CountSame(s.free[d], t.free[d], q, d, BlocksPerArena(d));
      forall i | 0 <= i < BlocksPerArena(d) ensures Addr(q, d, i) in t.free[d] || Addr(q, d, i) in t.live {
        AddrIsBlock(q, d, i);
        assert PageOf(Addr(q, d, i)) == q;
      }
    case Big(n) =>
      BigAddrPage(q);
  }

  lemma BigAddrPage(p: nat)
    ensures PageOf(BigAddr(p)) == p
  {
  }

  lemma FreeListKept(s: Heap, t: Heap, p: nat, d: nat)
    requires |s.free| == |t.free| == DESCS && d < DESCS
    requires FreeListOk(s, d) && Elsewhere(s, t, p) && PageOk(t, p) && StableOrder.Distinct(t.free[d])
    ensures FreeListOk(t, d)
  {
    hide PageOf, IsBlock, ArenaOk, LiveBlockOk, Held, StableOrder.Distinct;
    forall a | a in t.free[d] ensures FreeBlockOk(t, d, a) {
      if PageOf(a) != p {
        assert SameFree(s, t, a) && SameArena(s, t, PageOf(a));
      }
    }
  }

  lemma InvKept(s: Heap, t: Heap, p: nat)
    requires Inv(s) && |t.free| == DESCS
    requires Elsewhere(s, t, p) && PageOk(t, p) && ArenasApart(t.arenas)
    requires forall d :: 0 <= d < DESCS ==> StableOrder.Distinct(t.free[d])
    ensures Inv(t)
  {
    hide PageOf, IsBlock, BigAddr, ArenaOk, Held, StableOrder.Distinct, FreeListOk, ArenasApart;
    forall q | q in t.arenas ensures ArenaOk(t, q) {
      if q != p {
        assert SameArena(s, t, q);
        ArenaKept(s, t, p, q);
      }
    }
    forall d | 0 <= d < DESCS ensures FreeListOk(t, d) {
      FreeListKept(s, t, p, d);
    }
    forall a | a in t.live ensures LiveBlockOk(t, a) {
      if PageOf(a) != p {
        assert LiveBlockOk(s, a) && SameArena(s, t, PageOf(a));
      }
    }
  }

  // ----- each operation keeps the invariant

  /** Pages that are not in use are no arena's. */
  lemma UnusedApart(s: Heap, p: nat, cnt: nat)
    requires Inv(s) && Obtain(s, cnt) == Some(p)
    ensures forall q :: q in s.arenas ==> q != p && (q + Span(s.arenas[q]) <= p || p + cnt <= q)
    ensures forall a :: a in s.live ==> PageOf(a) != p
    ensures forall d :: 0 <= d < DESCS ==> forall a :: a in s.free[d] ==> PageOf(a) != p
  {
    hide SmallOk, Obtain, PageOf, IsBlock;
    forall q | q in s.arenas ensures q != p && (q + Span(s.arenas[q]) <= p || p + cnt <= q) {
      assert ArenaOk(s, q);
      var m := (if p < q then q else p) - s.base;
      var u := 0 <= m < |s.used| && s.used[m];
    }
    assert forall a :: a in s.live ==> LiveBlockOk(s, a);
    forall d, a | 0 <= d < DESCS && a in s.free[d] ensures PageOf(a) != p {
      assert FreeListOk(s, d) && FreeBlockOk(s, d, a);
    }
  }

  /** Marking pages in use that were not leaves the arenas their pages. */
  lemma MarkedElsewhere(s: Heap, t: Heap, p: nat, cnt: nat)
    requires Inv(s) && Obtain(s, cnt) == Some(p)
    requires t.base == s.base && t.used == Marked(s, p, cnt, true)
    ensures forall q :: q in s.arenas ==> Held(t, q, Span(s.arenas[q]))
    ensures Held(t, p, cnt)
  {
    hide SmallOk, Obtain, PageOf, IsBlock, Marked;
    assert forall q :: q in s.arenas ==> ArenaOk(s, q);
  }

  lemma TakeBigKeeps(s: Heap, p: nat, cnt: nat, size: nat)
    requires Inv(s) && Obtain(s, cnt) == Some(p)
    ensures Inv(TakeBig(s, p, cnt, size)) && p !in s.arenas && BigAddr(p) !in s.live
  {
    hide PageOf, BigAddr, SmallOk, Obtain, IsBlock, Marked, Held, Inv, StableOrder.Distinct;
    var t := TakeBig(s, p, cnt, size);
    BigAddrPage(p);
    UnusedApart(s, p, cnt);
    MarkedElsewhere(s, t, p, cnt);
    ApartKept(s, p, Big(cnt));
    ListsDistinct(s);
    InvKept(s, t, p);
  }

  lemma ApartKept(s: Heap, p: nat, arena: Arena)
    requires Inv(s) && Obtain(s, Span(arena)) == Some(p)
    ensures ArenasApart(s.arenas[p := arena])
  {
    UnusedApart(s, p, Span(arena));
    hide Obtain, ArenaOk, FreeListOk, LiveBlockOk;
  }

  lemma ListsDistinct(s: Heap)
    requires Inv(s)
    ensures forall d :: 0 <= d < DESCS ==> StableOrder.Distinct(s.free[d])
    ensures ArenasApart(s.arenas)
  {
    forall d | 0 <= d < DESCS ensures StableOrder.Distinct(s.free[d]) {
      assert FreeListOk(s, d);
    }
  }

  lemma BlocksAre(p: nat, d: nat, a: nat)
    requires d < DESCS
    ensures a in Blocks(p, d) <==> IsBlock(a, d) && PageOf(a) == p
  {
    hide PageOf, IsBlock, IdxOf, Addr;
    if a in Blocks(p, d) {
      var i :| 0 <= i < BlocksPerArena(d) && Blocks(p, d)[i] == a;
      AddrIsBlock(p, d, i);
    }
    if IsBlock(a, d) && PageOf(a) == p {
      BlockIsAddr(a, d);
      assert Blocks(p, d)[IdxOf(a, d)] == a;
    }
  }

  lemma BlocksDistinct(p: nat, d: nat)
    requires d < DESCS
    ensures StableOrder.Distinct(Blocks(p, d))
  {
    hide PageOf, IsBlock, IdxOf, Addr;
    forall i, j | 0 <= i < j < |Blocks(p, d)| ensures Blocks(p, d)[i] != Blocks(p, d)[j] {
      AddrIsBlock(p, d, i);
      AddrIsBlock(p, d, j);
    }
  }

  lemma NewArenaKeeps(s: Heap, p: nat, d: nat)
    requires Inv(s) && d < DESCS && Obtain(s, 1) == Some(p) && s.free[d] == []
    ensures Inv(NewArena(s, p, d)) && p !in s.arenas
  {
    hide PageOf, SmallOk, Obtain, IsBlock, Marked, Held, Inv, StableOrder.Distinct, Blocks, BlocksPerArena;
    var t := NewArena(s, p, d);
    assert t.free[d] == Blocks(p, d);
    forall a ensures a in Blocks(p, d) <==> IsBlock(a, d) && PageOf(a) == p {
      BlocksAre(p, d, a);
    }
    UnusedApart(s, p, 1);
    MarkedElsewhere(s, t, p, 1);
    ApartKept(s, p, Small(d, BlocksPerArena(d)));
    ListsDistinct(s);
    BlocksDistinct(p, d);
    NewArenaOk(t, p, d);
    InvKept(s, t, p);
  }

  lemma NewArenaOk(t: Heap, p: nat, d: nat)
    requires d < DESCS && |t.free| == DESCS && t.free[d] == Blocks(p, d)
    ensures SmallOk(t, p, d, BlocksPerArena(d))
  {
    hide Addr, BlocksPerArena;
    forall i | 0 <= i < BlocksPerArena(d) ensures Addr(p, d, i) in t.free[d] {
      assert Blocks(p, d)[i] == Addr(p, d, i);
    }
    CountAll(t.free[d], p, d, BlocksPerArena(d));
  }

  /** One block moves between the free list and the live blocks. */
  lemma BlockMoved(s: Heap, t: Heap, a: nat, d: nat)
    requires Inv(s) && |t.free| == DESCS && d < DESCS && IsBlock(a, d)
    requires t.base == s.base && t.used == s.used
    requires PageOf(a) in s.arenas && s.arenas[PageOf(a)].Small? && s.arenas[PageOf(a)].desc == d
    requires t.free == s.free[d := t.free[d]] && StableOrder.Distinct(t.free[d])
    requires forall x :: x != a ==> (x in s.free[d] <==> x in t.free[d]) && (x in s.live <==> x in t.live)
    requires (a in s.free[d]) != (a in t.free[d]) && (a in t.live) == (a !in t.free[d])
    requires t.arenas == s.arenas[PageOf(a) := Small(d, FreeCnt(s, PageOf(a)) + if a in t.free[d] then 1 else -1)]
    ensures Inv(t)
  {
    hide PageOf, Addr, IsBlock, IdxOf, BlocksPerArena, StableOrder.Distinct;
    var p := PageOf(a);
    assert ArenaOk(s, p);
    BlockIsAddr(a, d);
    if a in t.free[d] {
      CountAdd(s.free[d], t.free[d], p, d, BlocksPerArena(d), a);
    } else {
      CountAdd(t.free[d], s.free[d], p, d, BlocksPerArena(d), a);
    }
    assert SmallOk(t, p, d, t.arenas[p].freeCnt);
    MovedPage(s, t, a, d);
    ListsDistinct(s);
    InvKept(s, t, p);
  }

  lemma MovedPage(s: Heap, t: Heap, a: nat, d: nat)
    requires Inv(s) && |t.free| == DESCS && d < DESCS && IsBlock(a, d)
    requires t.base == s.base && t.used == s.used
    requires t.free == s.free[d := t.free[d]]
    requires forall x :: x != a ==> (x in s.free[d] <==> x in t.free[d]) && (x in s.live <==> x in t.live)
    requires (a in t.live) == (a !in t.free[d])
    requires PageOf(a) in s.arenas && s.arenas[PageOf(a)].Small? && s.arenas[PageOf(a)].desc == d
    requires PageOf(a) in t.arenas && t.arenas[PageOf(a)].Small? && t.arenas[PageOf(a)].desc == d
    requires t.arenas == s.arenas[PageOf(a) := t.arenas[PageOf(a)]]
    requires SmallOk(t, PageOf(a), d, t.arenas[PageOf(a)].freeCnt)
    ensures Elsewhere(s, t, PageOf(a)) && PageOk(t, PageOf(a)) && ArenasApart(t.arenas)
  {
    hide PageOf, Addr, IsBlock, IdxOf, SmallOk, StableOrder.Distinct;
    var p := PageOf(a);
    assert forall q :: q in s.arenas ==> ArenaOk(s, q);
    forall x: nat | PageOf(x) != p ensures (x in s.live <==> x in t.live) && SameFree(s, t, x) {
      assert x != a;
    }
    forall x | x in t.live && PageOf(x) == p ensures LiveBlockOk(t, x) {
      assert x != a ==> LiveBlockOk(s, x);
    }
    forall e, x | 0 <= e < DESCS && x in t.free[e] && PageOf(x) == p ensures FreeBlockOk(t, e, x) {
      assert FreeListOk(s, e) && (x != a ==> FreeBlockOk(s, e, x));
    }
  }

  lemma PopKeeps(s: Heap, d: nat, size: nat)
    requires Inv(s) && d < DESCS && s.free[d] != []
    ensures Inv(Pop(s, d, size)) && FreeBlockOk(s, d, s.free[d][0])
  {
    hide PageOf, IsBlock, Inv, ArenaOk, LiveBlockOk;
    var a, t := s.free[d][0], Pop(s, d, size);
    FreeListIs(s, d);
    assert FreeBlockOk(s, d, a);
    assert forall x :: x in s.free[d] ==> x == a || x in s.free[d][1..];
    BlockMoved(s, t, a, d);
  }

  lemma FreeListIs(s: Heap, d: nat)
    requires Inv(s) && d < DESCS
    ensures FreeListOk(s, d)
  {
  }

  lemma PushKeeps(s: Heap, a: nat)
    requires Inv(s) && a in s.live && PageOf(a) in s.arenas && s.arenas[PageOf(a)].Small?
    ensures var d := s.arenas[PageOf(a)].desc; d < DESCS && IsBlock(a, d) && a !in s.free[d] && Inv(Push(s, a, d))
  {
    hide PageOf, IsBlock, SmallOk;
    var d := s.arenas[PageOf(a)].desc;
    assert LiveBlockOk(s, a) && ArenaOk(s, PageOf(a));
    SmallDesc(s, PageOf(a));
    FreeListIs(s, d);
    assert a in s.free[d] ==> FreeBlockOk(s, d, a);
    BlockMoved(s, Push(s, a, d), a, d);
  }

  lemma SmallDesc(s: Heap, p: nat)
    requires Inv(s) && p in s.arenas && s.arenas[p].Small?
    ensures s.arenas[p].desc < DESCS && s.arenas[p].freeCnt <= BlocksPerArena(s.arenas[p].desc)
    ensures Held(s, p, 1) && SmallOk(s, p, s.arenas[p].desc, s.arenas[p].freeCnt)
  {
    assert ArenaOk(s, p);
  }

  /** Giving back an arena's pages leaves the other arenas theirs. */
  lemma ClearedElsewhere(s: Heap, t: Heap, p: nat)
    requires Inv(s) && p in s.arenas
    requires Held(s, p, Span(s.arenas[p])) && t.base == s.base && t.used == Marked(s, p, Span(s.arenas[p]), false)
    requires t.arenas == s.arenas - {p}
    ensures forall q :: q in t.arenas ==> Held(t, q, Span(t.arenas[q]))
    ensures ArenasApart(t.arenas)
  {
    hide SmallOk, PageOf, IsBlock, Marked, FreeListOk, LiveBlockOk;
    assert forall q :: q in s.arenas ==> ArenaOk(s, q);
  }

  /** When the free count reaches the number of blocks, every block of the arena is free, so none is live. */
  lemma AllFree(s: Heap, p: nat)
    requires Inv(s) && p in s.arenas && s.arenas[p].Small?
    requires s.arenas[p].freeCnt >= BlocksPerArena(s.arenas[p].desc)
    ensures var d := s.arenas[p].desc;
            d < DESCS && s.arenas[p].freeCnt == BlocksPerArena(d) && forall a :: a in Blocks(p, d) ==> a in s.free[d]
    ensures forall a :: a in s.live ==> PageOf(a) != p
  {
    hide PageOf, IsBlock, Addr, IdxOf, BlocksPerArena, Held;
    var d := s.arenas[p].desc;
    SmallDesc(s, p);
    FreeListIs(s, d);
    forall i | 0 <= i < BlocksPerArena(d) ensures Addr(p, d, i) in s.free[d] {
      CountFull(s.free[d], p, d, BlocksPerArena(d), i);
    }
    forall a | a in s.live ensures PageOf(a) != p {
      assert LiveBlockOk(s, a);
      if PageOf(a) == p {
        BlockIsAddr(a, d);
      }
    }
  }

  lemma ReleaseKeeps(s: Heap, p: nat)
    requires Inv(s) && p in s.arenas && s.arenas[p].Small?
    requires s.arenas[p].freeCnt >= BlocksPerArena(s.arenas[p].desc)
    ensures var d := s.arenas[p].desc; d < DESCS && Held(s, p, 1) && Inv(Release(s, p, d))
  {
    hide PageOf, IsBlock, Inv, Blocks, BlocksPerArena, SmallOk, StableOrder.Distinct, RemoveAll, Marked;
    var d := s.arenas[p].desc;
    SmallDesc(s, p);
    AllFree(s, p);
    var t := Release(s, p, d);
    ClearedElsewhere(s, t, p);
    ListsDistinct(s);
    forall a ensures a in Blocks(p, d) <==> IsBlock(a, d) && PageOf(a) == p {
      BlocksAre(p, d, a);
    }
    forall e, a | 0 <= e < DESCS && a in t.free[e] ensures PageOf(a) != p {
      FreeListIs(s, e);
    }
    InvKept(s, t, p);
  }

  /** A big block has its arena to itself. */
  lemma BigAlone(s: Heap, a: nat)
    requires Inv(s) && a in s.live && PageOf(a) in s.arenas && s.arenas[PageOf(a)].Big?
    ensures var p := PageOf(a); a == BigAddr(p) && Held(s, p, s.arenas[p].pages)
    ensures forall x :: x in s.live && x != a ==> PageOf(x) != PageOf(a)
    ensures forall d :: 0 <= d < DESCS ==> forall x :: x in s.free[d] ==> PageOf(x) != PageOf(a)
  {
    hide PageOf, IsBlock, BigAddr, StableOrder.Distinct, Held, SmallOk, ArenasApart;
    var p := PageOf(a);
    assert ArenaOk(s, p);
    assert forall x :: x in s.live ==> LiveBlockOk(s, x);
    forall d, x | 0 <= d < DESCS && x in s.free[d] ensures PageOf(x) != p {
      FreeListIs(s, d);
      assert FreeBlockOk(s, d, x);
    }
  }

  lemma DropBigKeeps(s: Heap, a: nat)
    requires Inv(s) && a in s.live && PageOf(a) in s.arenas && s.arenas[PageOf(a)].Big?
    ensures var p := PageOf(a);
            a == BigAddr(p) && Held(s, p, s.arenas[p].pages) && Inv(DropBig(s, p, s.arenas[p].pages))
  {
    hide PageOf, IsBlock, BigAddr, StableOrder.Distinct, Marked, Held, Inv, ArenaOk;
    var p := PageOf(a);
    BigAlone(s, a);
    var t := DropBig(s, p, s.arenas[p].pages);
    ClearedElsewhere(s, t, p);
    ListsDistinct(s);
    InvKept(s, t, p);
  }

  // ----- malloc and free

  /** What holds between calls. */
  ghost predicate Quiet(s: Heap) { Inv(s) && Busy(s) }

  lemma MallocKeeps(s: Heap, size: nat)
    requires Quiet(s)
    ensures Quiet(Malloc(s, size).0)
  {
    hide PageOf, IsBlock, Inv, Obtain, BlocksPerArena, Blocks, Marked, PageCnt;
    var d := FindDesc(size, 0);
    if size == 0 {
    } else if d == DESCS {
      var p := Obtain(s, PageCnt(size));
      if p.Some? {
        TakeBigKeeps(s, p.value, PageCnt(size), size);
      }
    } else if s.free[d] != [] {
      PopKeeps(s, d, size);
      SmallDesc(s, PageOf(s.free[d][0]));
    } else {
      var p := Obtain(s, 1);
      if p.Some? {
        NewArenaKeeps(s, p.value, d);
        var s1 := NewArena(s, p.value, d);
        NewArenaFirst(s, p.value, d);
        PopKeeps(s1, d, size);
      }
    }
  }

  lemma NewArenaFirst(s: Heap, p: nat, d: nat)
    requires s.base <= p < s.base + |s.used| && d < DESCS == |s.free| && s.free[d] == []
    ensures var s1 := NewArena(s, p, d);
            && s1.free[d] == Blocks(p, d) != []
            && s1.free[d][0] == BigAddr(p) && PageOf(BigAddr(p)) == p
            && s1.arenas[p] == Small(d, BlocksPerArena(d))
  {
    SizeTable(d);
    assert Blocks(p, d)[0] == Addr(p, d, 0);
  }

  lemma FreeKeeps(s: Heap, a: nat)
    requires Quiet(s) && a in s.live
    ensures Quiet(Free(s, a))
  {
    hide PageOf, IsBlock, BlocksPerArena, Blocks, Marked;
    var p := PageOf(a);
    assert LiveBlockOk(s, a);
    hide Inv;
    if s.arenas[p].Big? {
      DropBigKeeps(s, a);
    } else {
      PushKeeps(s, a);
      SmallDesc(s, p);
      var s1 := Push(s, a, s.arenas[p].desc);
      if s1.arenas[p].freeCnt >= BlocksPerArena(s.arenas[p].desc) {
        ReleaseKeeps(s1, p);
      }
    }
  }
}
