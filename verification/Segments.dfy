/** What a process sees through its page tables, and the arithmetic of ELF segments (userprog/process.c). */
module Segments {
  import opened Options
  import opened Vaddr
  import opened Bytes
  import opened Power2
  import opened Bits
  import opened PageTable

  // ----- an address space

  /** The page tables, and the contents of the frames they map. */
  datatype Space = Space(vm: Vm, frames: map<nat, seq<byte>>)

  ghost predicate FrameOk(s: Space, va: nat)
    requires VmOk(s.vm) && va < PHYS_BASE
  {
    Present(Pte(s.vm, va)) ==> FrameOf(Pte(s.vm, va)) in s.frames && |s.frames[FrameOf(Pte(s.vm, va))]| == PGSIZE
  }

  ghost predicate SpaceOk(s: Space) {
    VmOk(s.vm) && forall va: nat :: va < PHYS_BASE ==> FrameOk(s, va)
  }

  /** The byte at a user address and whether it may be written; None where nothing is mapped. */
  ghost function View(s: Space, va: nat): Option<(byte, bool)>
    requires SpaceOk(s) && va < PHYS_BASE
  {
    var e := Pte(s.vm, va);
    assert FrameOk(s, va);
    if Present(e) then Some((s.frames[FrameOf(e)][va % PGSIZE], Writable(e))) else None
  }

  lemma TableUnseen(s: Space, i: nat, t: nat)
    requires SpaceOk(s) && i < USER_PDES && s.vm.pd[i] == 0 && t !in s.vm.tables && t < 0x10_0000
    ensures var v := s.(vm := WithTable(s.vm, i, t));
            SpaceOk(v) && forall va: nat :: va < PHYS_BASE ==> View(v, va) == View(s, va)
  {
    hide Pte, WithTable, Present, Writable, FrameOf, VmOk;
    TableAdded(s.vm, i, t);
    var v := s.(vm := WithTable(s.vm, i, t));
    forall va: nat | va < PHYS_BASE ensures FrameOk(v, va) {
      assert FrameOk(s, va);
    }
  }

  /** Mapping a page to a new frame: its bytes are seen there, and nothing else changes. */
  lemma PageSeen(s: Space, upage: nat, frame: nat, bytes: seq<byte>, writable: bool)
    requires SpaceOk(s) && upage < PHYS_BASE && s.vm.pd[PdNo(upage)] != 0
    requires frame < 0x10_0000 && frame !in s.frames && |bytes| == PGSIZE
    ensures var v := Space(WithPte(s.vm, upage, PteCreateUser(frame, writable)), s.frames[frame := bytes]);
            && SpaceOk(v)
            && forall va: nat :: va < PHYS_BASE ==>
                 View(v, va) == if va / PGSIZE == upage / PGSIZE then Some((bytes[va % PGSIZE], writable)) else View(s, va)
  {
    hide Pte, WithPte, Present, Writable, FrameOf, PteCreateUser, VmOk;
    PteIs(frame, writable);
    PteWritten(s.vm, upage, PteCreateUser(frame, writable));
    var v := Space(WithPte(s.vm, upage, PteCreateUser(frame, writable)), s.frames[frame := bytes]);
    forall va: nat | va < PHYS_BASE ensures FrameOk(v, va) {
      assert FrameOk(s, va);
    }
    forall va: nat | va < PHYS_BASE
      ensures View(v, va) == if va / PGSIZE == upage / PGSIZE then Some((bytes[va % PGSIZE], writable)) else View(s, va)
    {
      assert FrameOk(s, va);
    }
  }

  /** Clearing the present bit of an entry unmaps its page and no other. */
  lemma PageCleared(s: Space, upage: nat)
    requires SpaceOk(s) && upage < PHYS_BASE && s.vm.pd[PdNo(upage)] != 0
    ensures var v := s.(vm := WithPte(s.vm, upage, And(Pte(s.vm, upage), W32 - 1 - PTE_P)));
            && SpaceOk(v)
            && forall va: nat :: va < PHYS_BASE ==>
                 View(v, va) == if va / PGSIZE == upage / PGSIZE then None else View(s, va)
  {
    hide Pte, WithPte, Present, Writable, FrameOf, VmOk, And;
    var e := Pte(s.vm, upage);
    PresentCleared(e);
    PteWritten(s.vm, upage, And(e, W32 - 1 - PTE_P));
    var v := s.(vm := WithPte(s.vm, upage, And(e, W32 - 1 - PTE_P)));
    forall va: nat | va < PHYS_BASE ensures FrameOk(v, va) {
      assert FrameOk(s, va);
    }
  }

  lemma PresentCleared(e: nat)
    requires e < W32
    ensures And(e, W32 - 1 - PTE_P) < W32 && !Present(And(e, W32 - 1 - PTE_P))
  {
    hide And, Present, RoundDown;
    Pow2Values();
    AndHighMask(e, 32, 1);
    EvenBelow(e);
    NotPresentEven(And(e, W32 - 1 - PTE_P) / 2);
  }

  lemma EvenBelow(e: nat)
    ensures RoundDown(e, 2) <= e && RoundDown(e, 2) % 2 == 0
  {
  }

  lemma NotPresentEven(x: nat)
    ensures !Present(2 * x)
  {
    assert 2 * x / 2 == x && 2 * x % 2 == 0;
    AndZero(x);
  }

  /** One page more is mapped, to these bytes; the rest is as it was. */
  ghost predicate PageAdded(s: Space, v: Space, upage: nat, bytes: seq<byte>, writable: bool)
    requires SpaceOk(s) && SpaceOk(v) && |bytes| == PGSIZE
  {
    forall va: nat :: va < PHYS_BASE ==>
      View(v, va) == if va / PGSIZE == upage / PGSIZE then Some((bytes[va % PGSIZE], writable)) else View(s, va)
  }

  // ----- a segment

  /** The byte a segment has at position k: from the file, then zero. */
  function SegmentByte(file: seq<byte>, ofs: nat, readBytes: nat, k: nat): byte {
    if k < readBytes && ofs + k < |file| then file[ofs + k] else 0
  }

  /** The first n bytes of the segment at upage have been loaded where nothing was mapped, and nothing else changed. */
  ghost predicate Loaded(s: Space, v: Space, upage: nat, n: nat, file: seq<byte>, ofs: nat, readBytes: nat, writable: bool)
    requires SpaceOk(s) && SpaceOk(v)
  {
    && upage + n <= PHYS_BASE
    && (forall va: nat :: upage <= va < upage + n ==>
          View(s, va) == None && View(v, va) == Some((SegmentByte(file, ofs, readBytes, va - upage), writable)))
    && (forall va: nat :: va < PHYS_BASE && !(upage <= va < upage + n) ==> View(v, va) == View(s, va))
  }

  lemma LoadedNone(s: Space, upage: nat, file: seq<byte>, ofs: nat, readBytes: nat, writable: bool)
    requires SpaceOk(s) && upage <= PHYS_BASE
    ensures Loaded(s, s, upage, 0, file, ofs, readBytes, writable)
  {
  }

  /** A page of the segment. */
  function PageBytes(file: seq<byte>, ofs: nat, readBytes: nat, n: nat): (r: seq<byte>)
    ensures |r| == PGSIZE
  {
    seq(PGSIZE, i requires 0 <= i < PGSIZE => SegmentByte(file, ofs, readBytes, n + i))
  }

  lemma LoadedPage(s: Space, v: Space, w: Space, upage: nat, n: nat,
                   file: seq<byte>, ofs: nat, readBytes: nat, writable: bool)
    requires SpaceOk(s) && SpaceOk(v) && SpaceOk(w)
    requires upage % PGSIZE == 0 && n % PGSIZE == 0 && upage + n + PGSIZE <= PHYS_BASE
    requires Loaded(s, v, upage, n, file, ofs, readBytes, writable)
    requires View(v, upage + n) == None
    requires PageAdded(v, w, upage + n, PageBytes(file, ofs, readBytes, n), writable)
    ensures Loaded(s, w, upage, n + PGSIZE, file, ofs, readBytes, writable)
  {
    hide View, SpaceOk, SegmentByte;
    var p := upage + n;
    forall va: nat | va < PHYS_BASE ensures p <= va < p + PGSIZE <==> va / PGSIZE == p / PGSIZE {
    }
    forall va: nat | p <= va < p + PGSIZE ensures View(s, va) == None && va % PGSIZE == va - p {
      Unmapped(v, p, va);
    }
  }

  /** A page is mapped as a whole. */
  lemma Unmapped(v: Space, p: nat, va: nat)
    requires SpaceOk(v) && p < PHYS_BASE && va < PHYS_BASE && p / PGSIZE == va / PGSIZE && View(v, p) == None
    ensures View(v, va) == None
  {
    hide Present, Writable, FrameOf;
    UserVa(p);
    UserVa(va);
    SamePage(p, va);
    assert FrameOk(v, p) && FrameOk(v, va);
  }

  // ----- program headers

  datatype Phdr = Phdr(offset: nat, vaddr: nat, filesz: nat, memsz: nat, flags: nat)

  predicate Words(ph: Phdr) {
    ph.offset < W32 && ph.vaddr < W32 && ph.filesz < W32 && ph.memsz < W32 && ph.flags < W32
  }

  const PGMASK: nat := 0xFFF

  /** validate_segment. */
  predicate ValidateSegment(ph: Phdr, fileLength: nat) {
    if And(ph.offset, PGMASK) != And(ph.vaddr, PGMASK) then false
    else if ph.offset > fileLength then false
    else if ph.memsz < ph.filesz then false
    else if ph.memsz == 0 then false
    else if !(ph.vaddr < PHYS_BASE) then false
    else if !(U32(ph.vaddr + ph.memsz) < PHYS_BASE) then false
    else if U32(ph.vaddr + ph.memsz) < ph.vaddr then false
    else if ph.vaddr < PGSIZE then false
    else true
  }

  lemma PageOffset(x: nat)
    ensures And(x, PGMASK) == x % PGSIZE
  {
    Pow2Values();
    AndLowMask(x, 12);
  }

  lemma PageBase(x: nat)
    requires x < W32
    ensures And(x, W32 - PGSIZE) == x - x % PGSIZE
  {
    Pow2Values();
    AndHighMask(x, 32, 12);
  }

  /** The wrapping tests amount to the exact one: the segment lies in user space, above page zero. */
  lemma ValidateIff(ph: Phdr, fileLength: nat)
    requires Words(ph)
    ensures ValidateSegment(ph, fileLength) <==>
              && ph.offset % PGSIZE == ph.vaddr % PGSIZE && ph.offset <= fileLength
              && ph.filesz <= ph.memsz && 0 < ph.memsz
              && PGSIZE <= ph.vaddr && ph.vaddr + ph.memsz < PHYS_BASE
  {
    hide And;
    PageOffset(ph.offset);
    PageOffset(ph.vaddr);
    var x := ph.vaddr + ph.memsz;
    assert x % W32 == if x < W32 then x else x - W32;
  }

  /** ROUND_UP (x, PGSIZE) in 32 bits. */
  function RoundUp(x: nat): nat { U32(x + PGSIZE - 1) / PGSIZE * PGSIZE }

  datatype Segment = Segment(filePage: nat, memPage: nat, readBytes: nat, zeroBytes: nat, writable: bool)

  /** The arguments that load computes for load_segment. */
  function SegmentOf(ph: Phdr): Segment {
    var pageOffset := And(ph.vaddr, PGMASK);
    var readBytes := if ph.filesz > 0 then U32(pageOffset + ph.filesz) else 0;
    Segment(And(ph.offset, W32 - PGSIZE), And(ph.vaddr, W32 - PGSIZE), readBytes,
            U32(RoundUp(U32(pageOffset + ph.memsz)) - readBytes), And(ph.flags, 2) != 0)
  }

  /** PF_W is the second lowest bit of a header's flags. */
  predicate WritableFlag(flags: nat) { flags / 2 % 2 == 1 }

  lemma MaskedFlag(flags: nat)
    ensures And(flags, 2) != 0 <==> WritableFlag(flags)
  {
    Bits.AndPow2(flags, 1);
    assert Pow2(1) == 2;
  }

  /** For an accepted header, load_segment's assertions hold and the segment is its page-rounded extent in user space. */
  lemma SegmentIs(ph: Phdr, fileLength: nat)
    requires Words(ph) && ValidateSegment(ph, fileLength)
    ensures var s := SegmentOf(ph);
            && s.filePage % PGSIZE == 0 && s.memPage % PGSIZE == 0 && (s.readBytes + s.zeroBytes) % PGSIZE == 0
            && s.memPage == ph.vaddr - ph.vaddr % PGSIZE && s.filePage == ph.offset - ph.offset % PGSIZE
            && s.readBytes == (if ph.filesz > 0 then ph.vaddr % PGSIZE + ph.filesz else 0)
            && ph.vaddr + ph.memsz <= s.memPage + s.readBytes + s.zeroBytes < ph.vaddr + ph.memsz + PGSIZE
            && s.memPage + s.readBytes + s.zeroBytes <= PHYS_BASE
            && (s.writable <==> WritableFlag(ph.flags))
  {
    hide And, ValidateSegment, RoundUp, U32;
    MaskedFlag(ph.flags);
    ValidateIff(ph, fileLength);
    PageOffset(ph.vaddr);
    PageBase(ph.vaddr);
    PageBase(ph.offset);
    var o := ph.vaddr % PGSIZE;
    var read := if ph.filesz > 0 then o + ph.filesz else 0;
    RoundUpIs(o + ph.memsz);
  }

  lemma RoundUpIs(x: nat)
    requires x + PGSIZE <= W32
    ensures var r := RoundUp(x); r % PGSIZE == 0 && x <= r < x + PGSIZE
  {
    assert U32(x + PGSIZE - 1) == x + PGSIZE - 1;
  }
}
