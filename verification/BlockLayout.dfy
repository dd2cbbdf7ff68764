/** How malloc lays blocks out in arenas (threads/malloc.c): descriptors, block addresses, and request sizes. */
module BlockLayout {
  import opened IntegerDivision
  import opened Power2
  import opened Vaddr

  const HEADER: nat := 12            // sizeof (struct arena)
  const DESCS: nat := 7              // what malloc_init creates

  function BlockSize(d: nat): (b: nat)
    ensures b > 0
  {
    16 * Pow2(d)
  }

  function BlocksPerArena(d: nat): nat { Quotient(PGSIZE - HEADER, BlockSize(d)) }

  /** malloc_init: the loop stops before PGSIZE / 2, so the largest block is 1 kB. */
  method MallocInit() returns (sizes: seq<nat>, perArena: seq<nat>)
    ensures |sizes| == |perArena| == DESCS <= 10
    ensures forall d :: 0 <= d < DESCS ==> sizes[d] == BlockSize(d) && perArena[d] == BlocksPerArena(d) > 1
  {
    sizes, perArena := [], [];
    var blockSize := 16;
    while blockSize < PGSIZE / 2
      invariant |sizes| == |perArena| <= DESCS && blockSize == BlockSize(|sizes|)
      invariant forall d :: 0 <= d < |sizes| ==> sizes[d] == BlockSize(d) && perArena[d] == BlocksPerArena(d) > 1
      decreases PGSIZE - blockSize
    {
      SizeTable(|sizes|);
      SizeTable(|sizes| + 1);
      sizes, perArena := sizes + [blockSize], perArena + [(PGSIZE - HEADER) / blockSize];
      blockSize := blockSize * 2;
    }
    SizeTable(|sizes|);
  }

  lemma SizeTable(d: nat)
    requires d <= DESCS
    ensures BlockSize(d) == [16, 32, 64, 128, 256, 512, 1024, 2048][d]
    ensures d < DESCS ==> BlocksPerArena(d) == [255, 127, 63, 31, 15, 7, 3][d]
  {
    assert Pow2(0) == 1;
    assert Pow2(1) == 2;
    assert Pow2(2) == 4;
    assert Pow2(3) == 8;
    assert Pow2(4) == 16;
    assert Pow2(5) == 32;
    assert Pow2(6) == 64;
    assert Pow2(7) == 128;
  }

  // ----- addresses

  function PageOf(a: nat): nat { a / PGSIZE }

  /** arena_to_block. */
  function Addr(page: nat, d: nat, i: nat): nat {
    page * PGSIZE + HEADER + i * BlockSize(d)
  }

  function BigAddr(page: nat): nat { page * PGSIZE + HEADER }

  /** What block_to_arena asserts of a small block, and that it lies wholly in its page. */
  predicate IsBlock(a: nat, d: nat) {
    var ofs := a % PGSIZE;
    ofs >= HEADER && (ofs - HEADER) % BlockSize(d) == 0 && (ofs - HEADER) / BlockSize(d) < BlocksPerArena(d)
  }

  function IdxOf(a: nat, d: nat): nat {
    var ofs := a % PGSIZE;
    if ofs < HEADER then 0 else Quotient(ofs - HEADER, BlockSize(d))
  }

  lemma BlockInPage(d: nat, i: nat)
    requires d < DESCS && i < BlocksPerArena(d)
    ensures i * BlockSize(d) + BlockSize(d) <= PGSIZE - HEADER
  {
    hide BlockSize;
    var b := BlockSize(d);
    DivBounds(PGSIZE - HEADER, b);
    MulLeq(i + 1, BlocksPerArena(d), b);
  }

  /** block_to_arena inverts arena_to_block ... */
  lemma AddrIsBlock(page: nat, d: nat, i: nat)
    requires d < DESCS && i < BlocksPerArena(d)
    ensures var a := Addr(page, d, i); PageOf(a) == page && IsBlock(a, d) && IdxOf(a, d) == i
  {
    hide BlockSize, BlocksPerArena;
    BlockInPage(d, i);
    var a, b := Addr(page, d, i), BlockSize(d);
    DivUnique(a, PGSIZE, page);
    assert a % PGSIZE == HEADER + i * b;
    DivUnique(i * b, b, i);
    assert (i * b) % b == i * b - i * b / b * b;
  }

  /** ... and every block is one arena_to_block gives. */
  lemma BlockIsAddr(a: nat, d: nat)
    requires d < DESCS && IsBlock(a, d)
    ensures IdxOf(a, d) < BlocksPerArena(d) && a == Addr(PageOf(a), d, IdxOf(a, d))
  {
    hide BlockSize, BlocksPerArena;
    var r, b := a % PGSIZE - HEADER, BlockSize(d);
    assert r == r / b * b + r % b;
    assert a == a / PGSIZE * PGSIZE + a % PGSIZE;
  }

  lemma BlockExtent(a: nat, d: nat)
    requires d < DESCS && IsBlock(a, d)
    ensures PageOf(a) * PGSIZE + HEADER <= a && a + BlockSize(d) <= (PageOf(a) + 1) * PGSIZE
  {
    hide BlockSize, BlocksPerArena, IsBlock, IdxOf, PageOf;
    BlockIsAddr(a, d);
    BlockInPage(d, IdxOf(a, d));
    MulLeq(0, IdxOf(a, d), BlockSize(d));
  }

  /** Two blocks of an arena do not overlap. */
  lemma BlocksApart(a: nat, b: nat, d: nat)
    requires d < DESCS && IsBlock(a, d) && IsBlock(b, d) && PageOf(a) == PageOf(b) && a < b
    ensures a + BlockSize(d) <= b
  {
    hide BlockSize, BlocksPerArena, IsBlock, IdxOf, PageOf;
    BlockIsAddr(a, d);
    BlockIsAddr(b, d);
    var i, j, s := IdxOf(a, d), IdxOf(b, d), BlockSize(d);
    CancelLess(i, j, s);
    MulLeq(i + 1, j, s);
  }

  // ----- requests

  /** The first descriptor from d on whose blocks hold size bytes; DESCS if there is none. */
  function FindDesc(size: nat, d: nat): (r: nat)
    requires d <= DESCS
    ensures d <= r <= DESCS && (r < DESCS ==> BlockSize(r) >= size)
    ensures forall e :: d <= e < r ==> BlockSize(e) < size
    decreases DESCS - d
  {
    if d == DESCS || BlockSize(d) >= size then d else FindDesc(size, d + 1)
  }

  /** DIV_ROUND_UP (size + sizeof *a, PGSIZE) in 32-bit arithmetic. */
  function PageCnt(size: nat): nat {
    (size + HEADER + PGSIZE - 1) % W32 / PGSIZE
  }

  /** A big block of PageCnt pages holds the request exactly when adding the header does not wrap. */
  lemma PageCntEnough(size: nat)
    requires 0 < size < W32 && PageCnt(size) > 0
    ensures HEADER + size <= PageCnt(size) * PGSIZE <==> size <= W32 - HEADER
  {
    var x := size + HEADER + PGSIZE - 1;
    if x < W32 {
      assert x % W32 == x;
    } else {
      assert x % W32 == x - W32;
    }
  }

  /** The requests for which the page count wraps to nothing, and so are refused. */
  lemma PageCntZero(size: nat)
    requires 0 < size < W32
    ensures PageCnt(size) == 0 <==> W32 - HEADER - PGSIZE < size <= W32 - HEADER
  {
    var x := size + HEADER + PGSIZE - 1;
    if x < W32 {
      assert x % W32 == x;
    } else {
      assert x % W32 == x - W32;
    }
  }

  /** calloc's size: the wrapped product, refused when it is below either factor. */
  function CallocSize(a: nat, b: nat): (r: (bool, nat)) {
    var size := a * b % W32;
    if size < a || size < b then (false, 0) else (true, size)
  }

  /** calloc asks for the whole product exactly when it fits in 32 bits and the factors are both zero or neither. */
  lemma CallocExact(a: nat, b: nat)
    requires a < W32 && b < W32
    ensures CallocSize(a, b) == (true, a * b) <==> a * b < W32 && (a == 0 <==> b == 0)
  {
    if a > 0 && b > 0 {
      MulLeq(1, a, b);
      MulLeq(1, b, a);
    }
  }

  /** calloc keeps its promise, to refuse a product that does not fit or else to ask for all of it, exactly when the product
      fits or wraps to less than a factor. */
  lemma CallocPromiseIff(a: nat, b: nat)
    requires a < W32 && b < W32
    ensures (CallocSize(a, b).0 ==> CallocSize(a, b).1 == a * b) <==> a * b < W32 || a * b % W32 < a || a * b % W32 < b
    ensures a * b >= W32 ==> (!CallocSize(a, b).0 <==> a * b % W32 < a || a * b % W32 < b)
  {
  }

  /** The test against the factors does not notice every wrap. */
  lemma CallocWraps()
    ensures CallocSize(65537, 65537) == (true, 131073) && 65537 * 65537 > W32
  {
  }
}
