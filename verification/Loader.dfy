/** Loading ELF segments into a process's address space (userprog/process.c, userprog/pagedir.c), with pages from the user
    pool and page tables from the kernel pool. Pages and tables are named by physical frame. */
module Loader {
  import opened Options
  import opened Vaddr
  import opened Bytes
  import opened PageTable
  import opened Segments
  import opened PageAllocator
  import opened LoadRoom
  import opened IntegerDivision
  import Bits
  import Bitmaps
  import InodeIO

  ghost predicate Taken(pool: Pool, p: nat)
    reads pool, pool.usedMap, pool.usedMap.bits
    requires pool.Valid()
  {
    pool.base <= p < pool.base + |pool.Used()| && pool.Used()[p - pool.base]
  }

  class Process {
    const userPool: Pool
    const kernelPool: Pool
    var pd: seq<nat>
    var tables: map<nat, seq<nat>>
    var frames: map<nat, seq<byte>>

    ghost predicate PoolsOk()
      reads this, userPool, userPool.usedMap, userPool.usedMap.bits, kernelPool, kernelPool.usedMap, kernelPool.usedMap.bits
    {
      && userPool.Valid() && kernelPool.Valid() && userPool.usedMap.bits != kernelPool.usedMap.bits
      && userPool.base + |userPool.Used()| <= 0x4_0000 && kernelPool.base + |kernelPool.Used()| <= 0x4_0000
      && (userPool.base + |userPool.Used()| <= kernelPool.base || kernelPool.base + |kernelPool.Used()| <= userPool.base)
      && (forall t :: t in tables ==> Taken(kernelPool, t))
      && (forall f :: f in frames ==> Taken(userPool, f))
    }

    ghost function Now(): Space
      reads this
    {
      Space(Vm(pd, tables), frames)
    }

    ghost predicate Valid()
      reads this, userPool, userPool.usedMap, userPool.usedMap.bits, kernelPool, kernelPool.usedMap, kernelPool.usedMap.bits
    {
      PoolsOk() && SpaceOk(Now())
    }

    /** Pages the two pools can still give. */
    ghost function UserFree(): nat
      reads userPool, userPool.usedMap, userPool.usedMap.bits
      requires userPool.Valid()
    {
      FreeCount(userPool.Used())
    }

    ghost function KernelFree(): nat
      reads kernelPool, kernelPool.usedMap, kernelPool.usedMap.bits
      requires kernelPool.Valid()
    {
      FreeCount(kernelPool.Used())
    }

    /** pagedir_create: no user mappings yet. */
    constructor (userPool: Pool, kernelPool: Pool, initPageDir: seq<nat>)
      requires userPool.Valid() && kernelPool.Valid() && userPool.usedMap.bits != kernelPool.usedMap.bits
      requires userPool.base + |userPool.Used()| <= kernelPool.base || kernelPool.base + |kernelPool.Used()| <= userPool.base
      requires userPool.base + |userPool.Used()| <= 0x4_0000 && kernelPool.base + |kernelPool.Used()| <= 0x4_0000
      requires |initPageDir| == ENTRIES && forall i :: 0 <= i < USER_PDES ==> initPageDir[i] == 0
      ensures Valid() && forall va: nat :: va < PHYS_BASE ==> View(Now(), va) == None
    {
      this.userPool, this.kernelPool := userPool, kernelPool;
      pd, tables, frames := initPageDir, map[], map[];
      new;
      EmptySpace(Now());
    }

    /** pagedir_get_page: the physical address a user address is mapped to. */
    method GetPage(uaddr: nat) returns (r: Option<nat>)
      requires SpaceOk(Now()) && uaddr < PHYS_BASE
      ensures r.Some? <==> View(Now(), uaddr).Some?
      ensures r.Some? ==> r.value == FrameOf(Pte(Now().vm, uaddr)) * PGSIZE + uaddr % PGSIZE
    {
      hide FrameOf, Present;
      UserVa(uaddr);
      assert FrameOk(Now(), uaddr);
      var pde := pd[PdNo(uaddr)];
      if pde == 0 {
        NotPresent();
        return None;
      }
      assert TableOk(tables, FrameOf(pde));
      var pte := tables[FrameOf(pde)][PtNo(uaddr)];
      r := if Present(pte) then Some(FrameOf(pte) * PGSIZE + uaddr % PGSIZE) else None;
    }

    /** lookup_page with create set, as far as the table: false when there is no memory for one. */
    method EnsureTable(upage: nat) returns (ok: bool)
      requires Valid() && upage < PHYS_BASE
      modifies this`pd, this`tables, kernelPool.usedMap.bits
      ensures Valid() && userPool.Used() == old(userPool.Used())
      ensures forall va: nat :: va < PHYS_BASE ==> View(Now(), va) == old(View(Now(), va))
      ensures ok ==> PdNo(upage) < |pd| && pd[PdNo(upage)] != 0
      ensures PageCost(old(pd), pd, PdNo(upage), old(KernelFree()), KernelFree(), ok)
      ensures ok <==> old(pd)[PdNo(upage)] != 0 || old(KernelFree()) > 0
    {
      hide SpaceOk, View, Pool.Valid, Pool.Used, PdeCreate, Bitmaps.FirstFit, Bitmaps.SetRange, FreeCount;
      UserVa(upage);
      TakeOne(kernelPool.Used());
      SpaceSize(Now());
      if pd[PdNo(upage)] == 0 {
        var page := kernelPool.GetMultiple(1);
        if page.None? {
          return false;
        }
        var t := page.value;
        TableUnseen(Now(), PdNo(upage), t);
        PdeIs(t);
        pd := pd[PdNo(upage) := PdeCreate(t)];
        tables := tables[t := seq(ENTRIES, _ => 0)];
      }
      ok := true;
    }

    /** pagedir_set_page, for a page that holds bytes. Its assertion that the entry is not present is a precondition, which
        install_page establishes. */
    method SetPage(upage: nat, kpage: nat, bytes: seq<byte>, writable: bool) returns (ok: bool)
      requires Valid() && upage < PHYS_BASE && upage % PGSIZE == 0 && View(Now(), upage) == None
      requires Taken(userPool, kpage) && kpage !in frames && |bytes| == PGSIZE
      modifies this, kernelPool.usedMap.bits
      ensures Valid() && userPool.Used() == old(userPool.Used())
      ensures !ok ==> frames == old(frames) && forall va: nat :: va < PHYS_BASE ==> View(Now(), va) == old(View(Now(), va))
      ensures ok ==> PageAdded(old(Now()), Now(), upage, bytes, writable)
      ensures PageCost(old(pd), pd, PdNo(upage), old(KernelFree()), KernelFree(), ok)
      ensures ok <==> old(pd)[PdNo(upage)] != 0 || old(KernelFree()) > 0
    {
      hide SpaceOk, View, Pool.Valid, Pool.Used, WithPte, PteCreateUser, FrameOf, KernelFree;
      ghost var s := Now();
      ok := EnsureTable(upage);
      if !ok {
        return;
      }
      ghost var s1 := Now();
      SpaceSize(s1);
      UserVa(upage);
      PageSeen(s1, upage, kpage, bytes, writable);
      TableThere(s1, upage);
      var t, e := FrameOf(pd[PdNo(upage)]), PteCreateUser(kpage, writable);
      tables := tables[t := tables[t][PtNo(upage) := e]];
      frames := frames[kpage := bytes];
      WithPteIs(s1.vm, upage, e);
    }

    /** pagedir_clear_page. */
    method ClearPage(upage: nat)
      requires Valid() && upage < PHYS_BASE && upage % PGSIZE == 0
      modifies this`tables
      ensures Valid()
      ensures forall va: nat :: va < PHYS_BASE ==>
                View(Now(), va) == if va / PGSIZE == upage / PGSIZE then None else old(View(Now(), va))
    {
      hide SpaceOk, View, Pool.Valid, Pool.Used, WithPte, FrameOf;
      ghost var s := Now();
      SpaceSize(s);
      UserVa(upage);
      if pd[PdNo(upage)] == 0 {
        NotThere(s, upage);
        return;
      }
      PteIsEntry(s, upage);
      var t := FrameOf(pd[PdNo(upage)]);
      var pte := tables[t][PtNo(upage)];
      if !Present(pte) {
        NotThere(s, upage);
        return;
      }
      PageCleared(s, upage);
      var e := Bits.And(pte, W32 - 1 - PTE_P);
      WithPteIs(s.vm, upage, e);
      tables := tables[t := tables[t][PtNo(upage) := e]];
    }

    /** install_page. */
    method InstallPage(upage: nat, kpage: nat, bytes: seq<byte>, writable: bool) returns (ok: bool)
      requires Valid() && upage < PHYS_BASE && upage % PGSIZE == 0
      requires Taken(userPool, kpage) && kpage !in frames && |bytes| == PGSIZE
      modifies this, kernelPool.usedMap.bits
      ensures Valid() && userPool.Used() == old(userPool.Used())
      ensures !ok ==> frames == old(frames) && forall va: nat :: va < PHYS_BASE ==> View(Now(), va) == old(View(Now(), va))
      ensures ok ==> PageAdded(old(Now()), Now(), upage, bytes, writable)
      ensures PageCost(old(pd), pd, PdNo(upage), old(KernelFree()), KernelFree(), ok)
      ensures ok <==> old(View(Now(), upage)) == None && (old(pd)[PdNo(upage)] != 0 || old(KernelFree()) > 0)
    {
      hide SpaceOk, View, Pool.Valid, Pool.Used, PageAdded, KernelFree;
      UserVa(upage);
      SpaceSize(Now());
      var there := GetPage(upage);
      if there.Some? {
        return false;
      }
      ok := SetPage(upage, kpage, bytes, writable);
    }

    /** A page from the user pool, filled from the file and then with zeros, and mapped; bounce says whether the reads can
        have a bounce buffer. On failure the page goes back. */
    method LoadPage(file: seq<byte>, pos: nat, pageRead: nat, upage: nat, writable: bool, bounce: bool) returns (ok: bool)
      requires Valid() && pageRead <= PGSIZE && upage < PHYS_BASE && upage % PGSIZE == 0
      modifies this, userPool.usedMap.bits, kernelPool.usedMap.bits
      ensures Valid()
      ensures !ok ==> forall va: nat :: va < PHYS_BASE ==> View(Now(), va) == old(View(Now(), va))
      ensures ok ==> pageRead == 0 || pos + pageRead <= |file|
      ensures ok ==> PageAdded(old(Now()), Now(), upage, PageBytes(file, pos, pageRead, 0), writable)
      ensures PageCost(old(pd), pd, PdNo(upage), old(KernelFree()), KernelFree(), ok)
      ensures UserFree() == old(UserFree()) - if ok then 1 else 0
      ensures ok <==>
              && old(UserFree()) > 0 && InodeIO.Transferred(|file|, pageRead, pos, bounce) == pageRead
              && old(View(Now(), upage)) == None && (old(pd)[PdNo(upage)] != 0 || old(KernelFree()) > 0)
    {
      hide SpaceOk, View, Pool.Valid, Pool.Used, PageAdded, Bitmaps.FirstFit, Bitmaps.SetRange, FreeCount;
      UserVa(upage);
      SpaceSize(Now());
      TakeOne(userPool.Used());
      ghost var used := userPool.Used();
      var page := userPool.GetMultiple(1);
      if page.None? {
        return false;
      }
      var kpage := page.value;
      assert kpage !in frames;
      var bytesRead := InodeIO.Transferred(|file|, pageRead, pos, bounce);
      ok := bytesRead == pageRead;
      if ok {
        var bytes := PageBytes(file, pos, pageRead, 0);
        ok := InstallPage(upage, kpage, bytes, writable);
      }
      if !ok {
        userPool.FreeMultiple(kpage, 1);
        GetThenFree(used, 1);
      }
    }

    /** load_segment. Its assertions are the preconditions on alignment. */
    method LoadSegment(file: seq<byte>, ofs: nat, upage: nat, readBytes: nat, zeroBytes: nat, writable: bool, bounce: bool)
      returns (ok: bool, ghost done: nat)
      requires Valid() && (readBytes + zeroBytes) % PGSIZE == 0 && upage % PGSIZE == 0 && ofs % PGSIZE == 0
      requires upage + readBytes + zeroBytes <= PHYS_BASE
      modifies this, userPool.usedMap.bits, kernelPool.usedMap.bits
      ensures Valid() && done <= readBytes + zeroBytes
      ensures Loaded(old(Now()), Now(), upage, done, file, ofs, readBytes, writable)
      ensures ok ==> done == readBytes + zeroBytes && (readBytes == 0 || ofs + readBytes <= |file|)
      ensures ok <==> Loadable(old(Now()), old(UserFree()), old(KernelFree()), upage, readBytes + zeroBytes, |file|, ofs, readBytes, bounce)
    {
      hide SpaceOk, View, Pool.Valid, Pool.Used, PageAdded, Loaded, PageBytes, KernelFree, UserFree, PageCost, Spent,
           Loadable, InodeIO.Transferred, LastTable, PdNo, ReadSoFar, ReadServed;
      ghost var s, n, u0, k0 := Now(), readBytes + zeroBytes, UserFree(), KernelFree();
      LoadedNone(s, upage, file, ofs, readBytes, writable);
      NoneSpent(s, u0, k0, upage, n);
      NoneRead(|file|, ofs, readBytes, bounce);
      done := 0;
      var toRead, toZero, up, pos := readBytes, zeroBytes, upage, ofs;
      while toRead > 0 || toZero > 0
        invariant Valid() && up == upage + done && done % PGSIZE == 0 && done <= readBytes + zeroBytes
        invariant toRead == (if done <= readBytes then readBytes - done else 0) && toZero == readBytes + zeroBytes - done - toRead
        invariant pos == ofs + readBytes - toRead && ReadSoFar(|file|, ofs, readBytes, done, bounce)
        invariant Loaded(s, Now(), upage, done, file, ofs, readBytes, writable)
        invariant Spent(s, u0, k0, upage, n, done, pd, UserFree(), KernelFree())
        decreases toRead + toZero
      {
        WholePages(readBytes + zeroBytes, done);
        var pageRead := if toRead < PGSIZE then toRead else PGSIZE;
        var pageZero := PGSIZE - pageRead;
        ghost var v, u, k := Now(), UserFree(), KernelFree();
        PageReadServed(|file|, ofs, readBytes, done, pos, pageRead, bounce);
        ok := LoadPage(file, pos, pageRead, up, writable, bounce);
        if !ok {
          LoadedSame(s, v, Now(), upage, done, file, ofs, readBytes, writable);
          Refused(s, v, u0, k0, upage, n, done, u, k, file, ofs, readBytes, writable, bounce, pageRead);
          return;
        }
        SamePageBytes(file, ofs, readBytes, done, pos, pageRead);
        LoadedPage(s, v, Now(), upage, done, file, ofs, readBytes, writable);
        PageSpent(s, u0, k0, upage, n, done, v.vm.pd, pd, UserFree(), k, KernelFree());
        ReadOneMore(|file|, ofs, readBytes, done, pageRead, bounce);
        toRead, toZero, up, pos, done := toRead - pageRead, toZero - pageZero, up + PGSIZE, pos + pageRead, done + PGSIZE;
      }
      ReadAll(|file|, ofs, readBytes, n, bounce);
      RoomForAll(s, Now(), u0, k0, upage, n, UserFree(), KernelFree(), file, ofs, readBytes, writable, bounce);
      ok := true;
    }

    /** load's treatment of one PT_LOAD header. */
    method LoadHeader(ph: Phdr, file: seq<byte>, bounce: bool) returns (ok: bool)
      requires Valid() && Words(ph)
      modifies this, userPool.usedMap.bits, kernelPool.usedMap.bits
      ensures Valid() && (ok ==> ValidateSegment(ph, |file|))
      ensures forall va: nat :: va < PHYS_BASE && old(View(Now(), va)).Some? ==> View(Now(), va) == old(View(Now(), va))
      ensures ok ==> SegmentSeen(old(Now()), Now(), ph, file)
      ensures ok <==> ValidateSegment(ph, |file|) &&
                      HeaderLoadable(old(Now()), old(UserFree()), old(KernelFree()), ph, |file|, bounce)
    {
      hide SpaceOk, View, Pool.Valid, Pool.Used, Loaded, SegmentOf, ValidateSegment, SegmentSeen, Loadable, HeaderLoadable,
           UserFree, KernelFree;
      if !ValidateSegment(ph, |file|) {
        return false;
      }
      SegmentIs(ph, |file|);
      var g := SegmentOf(ph);
      ghost var s := Now();
      ghost var done;
      HeaderRoom(s, UserFree(), KernelFree(), ph, |file|, bounce);
      ok, done := LoadSegment(file, g.filePage, g.memPage, g.readBytes, g.zeroBytes, g.writable, bounce);
      LoadedKeeps(s, Now(), g.memPage, done, file, g.filePage, g.readBytes, g.writable);
      if ok {
        SegmentLoaded(s, Now(), ph, file);
      }
    }
  }

  /** After an accepted header has been loaded: from the start of its first page to the end of its file part, each address
      sees the file's byte at the same distance from the header's offset; the rest of its pages is zero; none of them was
      mapped before; and every other user address sees what it saw. */
  ghost predicate SegmentSeen(s: Space, v: Space, ph: Phdr, file: seq<byte>)
    requires SpaceOk(s) && SpaceOk(v)
  {
    var first, last := ph.vaddr / PGSIZE, (ph.vaddr + ph.memsz - 1) / PGSIZE;
    var writable := WritableFlag(ph.flags);
    && (forall va: nat :: ph.filesz > 0 && va < PHYS_BASE && first * PGSIZE <= va < ph.vaddr + ph.filesz ==>
          && 0 <= ph.offset + va - ph.vaddr < |file|
          && View(v, va) == Some((file[ph.offset + va - ph.vaddr], writable)))
    && (forall va: nat :: va < PHYS_BASE && first <= va / PGSIZE <= last && (ph.filesz > 0 ==> ph.vaddr + ph.filesz <= va) ==>
          View(v, va) == Some((0, writable)))
    && (forall va: nat :: va < PHYS_BASE && first <= va / PGSIZE <= last ==> View(s, va) == None)
    && (forall va: nat :: va < PHYS_BASE && !(first <= va / PGSIZE <= last) ==> View(v, va) == View(s, va))
  }

  /** When an accepted header can be loaded: the user pool has a page for each of its pages and the kernel pool one for each
      table they lack, none of its pages is mapped, and the file holds its part, which ends on a sector boundary if no
      bounce buffer can be had. */
  ghost predicate HeaderLoadable(s: Space, userFree: nat, kernelFree: nat, ph: Phdr, length: nat, bounce: bool)
    requires SpaceOk(s)
  {
    var first, last := ph.vaddr / PGSIZE, (ph.vaddr + ph.memsz - 1) / PGSIZE;
    && last - first + 1 <= userFree
    && 0 <= last < PHYS_BASE / PGSIZE && Missing(s.vm.pd, first / ENTRIES, last / ENTRIES + 1) <= kernelFree
    && (forall va: nat :: va < PHYS_BASE && first <= va / PGSIZE <= last ==> View(s, va) == None)
    && (ph.filesz > 0 ==> ph.offset + ph.filesz <= length && (bounce || (ph.vaddr + ph.filesz) % InodeIO.SECTOR == 0))
  }

  lemma HeaderRoom(s: Space, userFree: nat, kernelFree: nat, ph: Phdr, length: nat, bounce: bool)
    requires SpaceOk(s) && Words(ph) && ValidateSegment(ph, length)
    ensures var g := SegmentOf(ph);
            && g.memPage + (g.readBytes + g.zeroBytes) <= PHYS_BASE
            && (Loadable(s, userFree, kernelFree, g.memPage, g.readBytes + g.zeroBytes, length, g.filePage, g.readBytes, bounce)
                <==> HeaderLoadable(s, userFree, kernelFree, ph, length, bounce))
  {
    hide View, SpaceOk, ValidateSegment, SegmentOf, Missing, PdNo, ReadServed;
    SegmentIs(ph, length);
    ValidateIff(ph, length);
    SpaceSize(s);
    var g := SegmentOf(ph);
    var end := g.memPage + g.readBytes + g.zeroBytes;
    FreeAddresses(s, ph.vaddr, ph.vaddr + ph.memsz, g.memPage, end);
    PageRange(ph.vaddr, ph.vaddr + ph.memsz, g.memPage, end);
    FilePart(ph.vaddr, ph.filesz, ph.offset, g.filePage, g.readBytes, length, bounce);
  }

  lemma FilePart(vaddr: nat, filesz: nat, offset: nat, filePage: nat, readBytes: nat, length: nat, bounce: bool)
    requires offset % PGSIZE == vaddr % PGSIZE && filePage == offset - offset % PGSIZE
    requires readBytes == if filesz > 0 then vaddr % PGSIZE + filesz else 0
    ensures ReadServed(length, filePage, readBytes, bounce) <==>
            (filesz > 0 ==> offset + filesz <= length && (bounce || (vaddr + filesz) % InodeIO.SECTOR == 0))
  {
    if filesz > 0 {
      SectorEnd(vaddr, filesz);
    }
  }

  lemma FreeAddresses(s: Space, lo: nat, hi: nat, start: nat, end: nat)
    requires SpaceOk(s)
    requires lo < hi && start == lo - lo % PGSIZE && end % PGSIZE == 0 && hi <= end < hi + PGSIZE && end <= PHYS_BASE
    ensures (forall va: nat :: start <= va < end ==> View(s, va) == None) <==>
            (forall va: nat :: va < PHYS_BASE && lo / PGSIZE <= va / PGSIZE <= (hi - 1) / PGSIZE ==> View(s, va) == None)
  {
    hide View, SpaceOk;
    forall va: nat | va < PHYS_BASE ensures start <= va < end <==> lo / PGSIZE <= va / PGSIZE <= (hi - 1) / PGSIZE {
      InPages(lo, hi, start, end, va);
    }
  }

  lemma PageRange(lo: nat, hi: nat, start: nat, end: nat)
    requires lo < hi && start == lo - lo % PGSIZE && end % PGSIZE == 0 && hi <= end < hi + PGSIZE && end <= PHYS_BASE
    ensures var first, last := lo / PGSIZE, (hi - 1) / PGSIZE;
            && (end - start) / PGSIZE == last - first + 1 && last < PHYS_BASE / PGSIZE && start < end
            && PdNo(start) == first / ENTRIES && PdNo(end - 1) == last / ENTRIES < ENTRIES
  {
    var first, pages := lo / PGSIZE, end / PGSIZE;
    assert start == first * PGSIZE && end == pages * PGSIZE;
    DivUnique(hi - 1, PGSIZE, pages - 1);
    DivUnique(end - 1, PGSIZE, pages - 1);
    DivUnique(end - start, PGSIZE, pages - first);
    TableOf(start, first);
    TableOf(end - 1, pages - 1);
  }

  lemma TableOf(va: nat, page: nat)
    requires va / PGSIZE == page
    ensures PdNo(va) == page / ENTRIES
  {
    DivDiv(va, PGSIZE, ENTRIES);
  }

  lemma SectorEnd(vaddr: nat, filesz: nat)
    ensures (vaddr % PGSIZE + filesz) % InodeIO.SECTOR == (vaddr + filesz) % InodeIO.SECTOR
  {
    PagesAreSectors(vaddr / PGSIZE * PGSIZE, vaddr % PGSIZE + filesz);
  }

  lemma SegmentLoaded(s: Space, v: Space, ph: Phdr, file: seq<byte>)
    requires SpaceOk(s) && SpaceOk(v) && Words(ph) && ValidateSegment(ph, |file|)
    requires var g := SegmentOf(ph);
             && Loaded(s, v, g.memPage, g.readBytes + g.zeroBytes, file, g.filePage, g.readBytes, g.writable)
             && (g.readBytes == 0 || g.filePage + g.readBytes <= |file|)
    ensures SegmentSeen(s, v, ph, file)
  {
    hide View, SpaceOk, ValidateSegment, SegmentOf, Loaded;
    SegmentIs(ph, |file|);
    ValidateIff(ph, |file|);
    var g := SegmentOf(ph);
    var end := g.memPage + g.readBytes + g.zeroBytes;
    forall va: nat | va < PHYS_BASE
      ensures g.memPage <= va < end <==> ph.vaddr / PGSIZE <= va / PGSIZE <= (ph.vaddr + ph.memsz - 1) / PGSIZE
    {
      InPages(ph.vaddr, ph.vaddr + ph.memsz, g.memPage, end, va);
    }
    LoadedViews(s, v, g.memPage, g.readBytes + g.zeroBytes, file, g.filePage, g.readBytes, g.writable);
  }

  lemma LoadedViews(s: Space, v: Space, upage: nat, n: nat, file: seq<byte>, ofs: nat, readBytes: nat, writable: bool)
    requires SpaceOk(s) && SpaceOk(v) && Loaded(s, v, upage, n, file, ofs, readBytes, writable)
    ensures upage + n <= PHYS_BASE
    ensures forall va: nat :: upage <= va < upage + n ==>
              View(s, va) == None && View(v, va) == Some((SegmentByte(file, ofs, readBytes, va - upage), writable))
    ensures forall va: nat :: va < PHYS_BASE && !(upage <= va < upage + n) ==> View(v, va) == View(s, va)
  {
  }

  lemma LoadedKeeps(s: Space, v: Space, upage: nat, n: nat, file: seq<byte>, ofs: nat, readBytes: nat, writable: bool)
    requires SpaceOk(s) && SpaceOk(v) && Loaded(s, v, upage, n, file, ofs, readBytes, writable)
    ensures forall va: nat :: va < PHYS_BASE && View(s, va).Some? ==> View(v, va) == View(s, va)
  {
    hide View, SpaceOk;
  }

  lemma LoadedSame(s: Space, v: Space, w: Space, upage: nat, n: nat, file: seq<byte>, ofs: nat, readBytes: nat, writable: bool)
    requires SpaceOk(s) && SpaceOk(v) && SpaceOk(w) && Loaded(s, v, upage, n, file, ofs, readBytes, writable)
    requires forall va: nat :: va < PHYS_BASE ==> View(w, va) == View(v, va)
    ensures Loaded(s, w, upage, n, file, ofs, readBytes, writable)
  {
    hide View, SpaceOk;
  }

  lemma InPages(lo: nat, hi: nat, start: nat, end: nat, va: nat)
    requires lo < hi && start == lo - lo % PGSIZE && end % PGSIZE == 0 && hi <= end < hi + PGSIZE
    ensures start <= va < end <==> lo / PGSIZE <= va / PGSIZE <= (hi - 1) / PGSIZE
  {
  }

  lemma WholePages(total: nat, done: nat)
    requires total % PGSIZE == 0 && done % PGSIZE == 0 && done < total
    ensures done + PGSIZE <= total && (done + PGSIZE) % PGSIZE == 0
  {
  }

  lemma SamePageBytes(file: seq<byte>, ofs: nat, readBytes: nat, done: nat, pos: nat, pageRead: nat)
    requires pos == ofs + (if done <= readBytes then done else readBytes)
    requires pageRead == if done + PGSIZE <= readBytes then PGSIZE else if done <= readBytes then readBytes - done else 0
    ensures PageBytes(file, pos, pageRead, 0) == PageBytes(file, ofs, readBytes, done)
  {
    var a, b := PageBytes(file, pos, pageRead, 0), PageBytes(file, ofs, readBytes, done);
    forall i | 0 <= i < PGSIZE ensures a[i] == b[i] {
      assert a[i] == SegmentByte(file, pos, pageRead, i);
      assert b[i] == SegmentByte(file, ofs, readBytes, done + i);
    }
  }

  lemma TableThere(s: Space, upage: nat)
    requires SpaceOk(s) && upage < PHYS_BASE && |s.vm.pd| == ENTRIES && PdNo(upage) < ENTRIES && s.vm.pd[PdNo(upage)] != 0
    ensures var t := FrameOf(s.vm.pd[PdNo(upage)]); t in s.vm.tables && PtNo(upage) < |s.vm.tables[t]|
  {
    UserVa(upage);
    assert TableOk(s.vm.tables, FrameOf(s.vm.pd[PdNo(upage)]));
  }

  lemma PteIsEntry(s: Space, upage: nat)
    requires SpaceOk(s) && upage < PHYS_BASE && s.vm.pd[PdNo(upage)] != 0
    ensures var t := FrameOf(s.vm.pd[PdNo(upage)]);
            t in s.vm.tables && PtNo(upage) < |s.vm.tables[t]| && Pte(s.vm, upage) == s.vm.tables[t][PtNo(upage)]
  {
    SpaceSize(s);
    UserVa(upage);
    TableThere(s, upage);
  }

  lemma NotThere(s: Space, upage: nat)
    requires SpaceOk(s) && upage < PHYS_BASE && (s.vm.pd[PdNo(upage)] == 0 || !Present(Pte(s.vm, upage)))
    ensures forall va: nat :: va < PHYS_BASE && va / PGSIZE == upage / PGSIZE ==> View(s, va) == None
  {
    hide Present, FrameOf, PdNo, PtNo;
    NotPresent();
    forall va: nat | va < PHYS_BASE && va / PGSIZE == upage / PGSIZE ensures View(s, va) == None {
      Unmapped(s, upage, va);
    }
  }

  lemma WithPteIs(vm: Vm, upage: nat, e: nat)
    requires |vm.pd| == ENTRIES && upage < PHYS_BASE && PdNo(upage) < ENTRIES
    requires var t := FrameOf(vm.pd[PdNo(upage)]); t in vm.tables && PtNo(upage) < |vm.tables[t]|
    ensures var t := FrameOf(vm.pd[PdNo(upage)]); var table: seq<nat> := vm.tables[t][PtNo(upage) := e];
            WithPte(vm, upage, e) == Vm(vm.pd, vm.tables[t := table])
  {
  }

  lemma EmptySpace(s: Space)
    requires |s.vm.pd| == ENTRIES && forall i :: 0 <= i < USER_PDES ==> s.vm.pd[i] == 0
    ensures SpaceOk(s) && forall va: nat :: va < PHYS_BASE ==> View(s, va) == None
  {
    hide Present, FrameOf;
    NotPresent();
    forall va: nat | va < PHYS_BASE ensures Pte(s.vm, va) == 0 {
      UserVa(va);
    }
    assert forall va: nat :: va < PHYS_BASE ==> FrameOk(s, va);
  }

  lemma NotPresent()
    ensures !Present(0)
  {
  }

  lemma SpaceSize(s: Space)
    requires SpaceOk(s)
    ensures |s.vm.pd| == ENTRIES
  {
  }
}
