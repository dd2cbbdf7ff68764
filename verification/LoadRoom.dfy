/** The pages a segment needs (userprog/process.c): one from the user pool for each of its pages, and one from the kernel
    pool for each page table that is missing. */
module LoadRoom {
  import opened Options
  import opened Vaddr
  import opened Bytes
  import opened PageTable
  import opened Segments
  import Bits
  import Bitmaps
  import InodeIO

  // ----- counting free pages

  function FreeCount(used: seq<bool>): nat {
    if used == [] then 0 else FreeCount(used[..|used| - 1]) + if used[|used| - 1] then 0 else 1
  }

  lemma {:induction false} FreeCountTaken(used: seq<bool>, i: nat)
    requires i < |used| && !used[i]
    ensures FreeCount(used) == FreeCount(used[i := true]) + 1
  {
    var n := |used| - 1;
    var after := used[i := true];
    if i == n {
      assert after[..n] == used[..n];
    } else {
      assert after[..n] == used[..n][i := true];
      FreeCountTaken(used[..n], i);
    }
  }

  lemma {:induction false} FreeCountZero(used: seq<bool>)
    requires forall i :: 0 <= i < |used| ==> used[i]
    ensures FreeCount(used) == 0
  {
    if used != [] {
      FreeCountZero(used[..|used| - 1]);
    }
  }

  /** One page is obtained exactly when there is one, and then there is one less. */
  lemma TakeOne(used: seq<bool>)
    ensures var fit := Bitmaps.FirstFit(used, 0, 1, false);
            && (fit.Some? <==> FreeCount(used) > 0)
            && (fit.Some? ==> FreeCount(Bitmaps.SetRange(used, fit.value, 1, true)) == FreeCount(used) - 1)
  {
    hide Bitmaps.FirstFit, Bitmaps.SetRange, FreeCount;
    var fit := Bitmaps.FirstFit(used, 0, 1, false);
    if fit.Some? {
      assert used[fit.value] == false;
      FreeCountTaken(used, fit.value);
      assert Bitmaps.SetRange(used, fit.value, 1, true) == used[fit.value := true];
    } else {
      forall i | 0 <= i < |used| ensures used[i] {
        assert !Bitmaps.AllEqual(used, i, 1, false);
      }
      FreeCountZero(used);
    }
  }

  // ----- missing page tables

  /** How many directory entries from lo up to hi have no table. */
  function Missing(pd: seq<nat>, lo: nat, hi: nat): nat
    requires hi <= |pd|
    decreases hi - lo
  {
    if lo >= hi then 0 else (if pd[lo] == 0 then 1 else 0) + Missing(pd, lo + 1, hi)
  }

  lemma {:induction false} MissingSame(pd: seq<nat>, after: seq<nat>, lo: nat, hi: nat)
    requires hi <= |pd| && hi <= |after| && forall i :: lo <= i < hi ==> after[i] == pd[i]
    ensures Missing(after, lo, hi) == Missing(pd, lo, hi)
    decreases hi - lo
  {
    if lo < hi {
      MissingSame(pd, after, lo + 1, hi);
    }
  }

  /** Directory and kernel pool around the mapping of a page under entry j: at most that entry changes, and a table costs
      a page. */
  ghost predicate PageCost(pd: seq<nat>, after: seq<nat>, j: nat, free: nat, left: nat, ok: bool) {
    && j < |pd| == |after| && (forall i :: 0 <= i < |pd| && i != j ==> after[i] == pd[i])
    && (ok ==> after[j] != 0) && (!ok ==> after == pd)
    && left == free - if ok && pd[j] == 0 then 1 else 0
  }

  /** The table that is lacking is counted once. */
  lemma MissingStep(pd: seq<nat>, after: seq<nat>, j: nat, free: nat, left: nat, next: nat, hi: nat)
    requires PageCost(pd, after, j, free, left, true) && j < hi <= |pd| && (next == j || next == j + 1)
    ensures free - Missing(pd, j, hi) == left - Missing(after, next, hi)
  {
    MissingSame(pd, after, j + 1, hi);
  }

  // ----- when a segment can be loaded

  /** The directory entry after the last page's. */
  function LastTable(upage: nat, n: nat): nat {
    if n == 0 then PdNo(upage) else PdNo(upage + n - 1) + 1
  }

  /** Room for the n bytes from upage on, none of them mapped, and a file that gives readBytes bytes from ofs. */
  ghost predicate Loadable(s: Space, userFree: nat, kernelFree: nat, upage: nat, n: nat, length: nat, ofs: nat,
                           readBytes: nat, bounce: bool)
    requires SpaceOk(s) && upage + n <= PHYS_BASE
  {
    && n / PGSIZE <= userFree
    && LastTable(upage, n) <= |s.vm.pd| && Missing(s.vm.pd, PdNo(upage), LastTable(upage, n)) <= kernelFree
    && (forall va: nat :: upage <= va < upage + n ==> View(s, va) == None)
    && ReadServed(length, ofs, readBytes, bounce)
  }

  predicate ReadServed(length: nat, ofs: nat, readBytes: nat, bounce: bool) {
    readBytes > 0 ==> ofs + readBytes <= length && (bounce || readBytes % InodeIO.SECTOR == 0)
  }

  /** A read from a sector boundary is whole. */
  lemma WholeRead(length: nat, ofs: nat, n: nat, bounce: bool)
    requires ofs % InodeIO.SECTOR == 0
    ensures InodeIO.Transferred(length, n, ofs, bounce) == n <==> ReadServed(length, ofs, n, bounce)
  {
  }

  lemma TablesInside(s: Space, upage: nat, n: nat)
    requires SpaceOk(s) && upage + n <= PHYS_BASE
    ensures |s.vm.pd| == ENTRIES && PdNo(upage) <= LastTable(upage, n) <= ENTRIES
  {
  }

  /** From one page of the segment to the next. */
  lemma NextPage(upage: nat, n: nat, done: nat)
    requires done + PGSIZE <= n && upage % PGSIZE == 0 && done % PGSIZE == 0
    ensures var up := upage + done;
            && PdNo(up) < LastTable(upage, n)
            && (PdNo(up + PGSIZE) == PdNo(up) || PdNo(up + PGSIZE) == PdNo(up) + 1) && PdNo(up + PGSIZE) <= LastTable(upage, n)
            && (done + PGSIZE) / PGSIZE == done / PGSIZE + 1 <= n / PGSIZE
  {
  }

  /** How far a segment has been loaded: what it cost, and that the reads were served. */
  ghost predicate Spent(s: Space, userFree: nat, kernelFree: nat, upage: nat, n: nat, done: nat, pd: seq<nat>,
                        userLeft: nat, kernelLeft: nat)
    requires SpaceOk(s) && upage + n <= PHYS_BASE
  {
    var up, hi := upage + done, LastTable(upage, n);
    && |pd| == |s.vm.pd| == ENTRIES && PdNo(up) <= hi <= ENTRIES
    && userLeft + done / PGSIZE == userFree
    && kernelLeft - Missing(pd, PdNo(up), hi) == kernelFree - Missing(s.vm.pd, PdNo(upage), hi)
    && (done > 0 ==> done >= PGSIZE && PdNo(up - PGSIZE) < ENTRIES && pd[PdNo(up - PGSIZE)] != 0)
  }

  lemma NoneSpent(s: Space, userFree: nat, kernelFree: nat, upage: nat, n: nat)
    requires SpaceOk(s) && upage + n <= PHYS_BASE
    ensures Spent(s, userFree, kernelFree, upage, n, 0, s.vm.pd, userFree, kernelFree)
  {
    TablesInside(s, upage, n);
  }

  lemma PageSpent(s: Space, userFree: nat, kernelFree: nat, upage: nat, n: nat, done: nat, pd: seq<nat>, after: seq<nat>,
                  userLeft: nat, kernelBefore: nat, kernelLeft: nat)
    requires SpaceOk(s) && upage + n <= PHYS_BASE && upage % PGSIZE == 0 && done % PGSIZE == 0 && done + PGSIZE <= n
    requires Spent(s, userFree, kernelFree, upage, n, done, pd, userLeft + 1, kernelBefore)
    requires PageCost(pd, after, PdNo(upage + done), kernelBefore, kernelLeft, true)
    ensures Spent(s, userFree, kernelFree, upage, n, done + PGSIZE, after, userLeft, kernelLeft)
  {
    hide SpaceOk, Missing, PdNo;
    var up := upage + done;
    NextPage(upage, n, done);
    MissingStep(pd, after, PdNo(up), kernelBefore, kernelLeft, PdNo(up + PGSIZE), LastTable(upage, n));
    assert up + PGSIZE == upage + (done + PGSIZE);
  }

  /** A page that cannot be loaded: no page for it, no page for its table, an address in use, or a short read. */
  lemma Refused(s: Space, v: Space, userFree: nat, kernelFree: nat, upage: nat, n: nat, done: nat,
                userLeft: nat, kernelLeft: nat, file: seq<byte>, ofs: nat, readBytes: nat, writable: bool, bounce: bool, pageRead: nat)
    requires SpaceOk(s) && SpaceOk(v) && upage + n <= PHYS_BASE && upage % PGSIZE == 0 && done % PGSIZE == 0 && done + PGSIZE <= n
    requires Loaded(s, v, upage, done, file, ofs, readBytes, writable)
    requires Spent(s, userFree, kernelFree, upage, n, done, v.vm.pd, userLeft, kernelLeft)
    requires PageRead(readBytes, done, pageRead) && ofs % PGSIZE == 0
    requires || userLeft == 0 || View(v, upage + done).Some?
             || (v.vm.pd[PdNo(upage + done)] == 0 && kernelLeft == 0)
             || (pageRead > 0 && !ReadServed(|file|, ofs + done, pageRead, bounce))
    ensures !Loadable(s, userFree, kernelFree, upage, n, |file|, ofs, readBytes, bounce)
  {
    hide SpaceOk, View, PdNo;
    NextPage(upage, n, done);
    if pageRead > 0 && !ReadServed(|file|, ofs + done, pageRead, bounce) {
      SectorsLeft(readBytes, done, pageRead);
    }
  }

  /** How much of the page at done comes from the file. */
  predicate PageRead(readBytes: nat, done: nat, pageRead: nat) {
    pageRead == if done + PGSIZE <= readBytes then PGSIZE else if done <= readBytes then readBytes - done else 0
  }

  /** The pages up to done have had their bytes of the file. */
  predicate ReadSoFar(length: nat, ofs: nat, readBytes: nat, done: nat, bounce: bool) {
    && (done > 0 && readBytes > 0 ==> ofs + (if done <= readBytes then done else readBytes) <= length)
    && (done >= readBytes > 0 ==> bounce || readBytes % InodeIO.SECTOR == 0)
  }

  /** The read for one more page is whole exactly when the file serves it. */
  lemma PageReadServed(length: nat, ofs: nat, readBytes: nat, done: nat, pos: nat, pageRead: nat, bounce: bool)
    requires ofs % PGSIZE == 0 && done % PGSIZE == 0 && PageRead(readBytes, done, pageRead)
    requires pos == ofs + (if done <= readBytes then done else readBytes)
    ensures InodeIO.Transferred(length, pageRead, pos, bounce) == pageRead <==>
            pageRead == 0 || ReadServed(length, ofs + done, pageRead, bounce)
  {
    hide InodeIO.Transferred, ReadServed;
    if pageRead > 0 {
      SectorAligned(ofs, done);
      WholeRead(length, pos, pageRead, bounce);
    } else {
      NothingRead(length, pos, bounce);
    }
  }

  lemma ReadOneMore(length: nat, ofs: nat, readBytes: nat, done: nat, pageRead: nat, bounce: bool)
    requires done % PGSIZE == 0 && PageRead(readBytes, done, pageRead) && ReadSoFar(length, ofs, readBytes, done, bounce)
    requires pageRead == 0 || ReadServed(length, ofs + done, pageRead, bounce)
    ensures ReadSoFar(length, ofs, readBytes, done + PGSIZE, bounce)
  {
    if pageRead > 0 {
      SectorsLeft(readBytes, done, pageRead);
    }
  }

  lemma NoneRead(length: nat, ofs: nat, readBytes: nat, bounce: bool)
    ensures ReadSoFar(length, ofs, readBytes, 0, bounce)
  {
  }

  lemma ReadAll(length: nat, ofs: nat, readBytes: nat, n: nat, bounce: bool)
    requires readBytes <= n && ReadSoFar(length, ofs, readBytes, n, bounce)
    ensures ReadServed(length, ofs, readBytes, bounce) && (readBytes == 0 || ofs + readBytes <= length)
  {
  }

  lemma SectorAligned(ofs: nat, done: nat)
    requires ofs % PGSIZE == 0 && done % PGSIZE == 0
    ensures (ofs + done) % InodeIO.SECTOR == 0
  {
    PagesAreSectors(ofs, done);
    PagesAreSectors(done, 0);
  }

  lemma NothingRead(length: nat, pos: nat, bounce: bool)
    ensures InodeIO.Transferred(length, 0, pos, bounce) == 0
  {
  }

  lemma SectorsLeft(readBytes: nat, done: nat, pageRead: nat)
    requires PageRead(readBytes, done, pageRead) && pageRead > 0 && done % PGSIZE == 0
    ensures done + pageRead <= readBytes
    ensures pageRead % InodeIO.SECTOR != 0 ==> readBytes % InodeIO.SECTOR == pageRead % InodeIO.SECTOR
    ensures done + pageRead == readBytes ==> readBytes % InodeIO.SECTOR == pageRead % InodeIO.SECTOR
  {
    assert PGSIZE % InodeIO.SECTOR == 0;
    if done + pageRead == readBytes {
      PagesAreSectors(done, pageRead);
    }
  }

  lemma PagesAreSectors(done: nat, n: nat)
    requires done % PGSIZE == 0
    ensures (done + n) % InodeIO.SECTOR == n % InodeIO.SECTOR
  {
    var k := done / PGSIZE * 8 + n / InodeIO.SECTOR;
    Bits.ModUnique(done + n, InodeIO.SECTOR, k, n % InodeIO.SECTOR);
  }

  /** When all pages have been loaded, there was room for them. */
  lemma RoomForAll(s: Space, v: Space, userFree: nat, kernelFree: nat, upage: nat, n: nat, userLeft: nat, kernelLeft: nat,
                   file: seq<byte>, ofs: nat, readBytes: nat, writable: bool, bounce: bool)
    requires SpaceOk(s) && SpaceOk(v) && upage + n <= PHYS_BASE && upage % PGSIZE == 0 && n % PGSIZE == 0
    requires Loaded(s, v, upage, n, file, ofs, readBytes, writable)
    requires Spent(s, userFree, kernelFree, upage, n, n, v.vm.pd, userLeft, kernelLeft)
    requires ReadServed(|file|, ofs, readBytes, bounce)
    ensures Loadable(s, userFree, kernelFree, upage, n, |file|, ofs, readBytes, bounce)
  {
    hide SpaceOk, View;
    assert Missing(v.vm.pd, PdNo(upage + n), LastTable(upage, n)) == 0;
  }
}
