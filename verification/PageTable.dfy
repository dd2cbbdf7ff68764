/** Two-level page tables (userprog/pagedir.c, threads/pte.h). A frame is a physical page number. Entry i of the page
    directory covers 4 MB; a table is kept under the frame that holds it. */
module PageTable {
  import opened Options
  import opened Vaddr
  import opened Power2
  import opened Bits

  const ENTRIES: nat := 1024
  const PTSPAN: nat := 0x40_0000
  const USER_PDES: nat := 768         // pd_no (PHYS_BASE)

  const PTE_ADDR: nat := 0xFFFF_F000
  const PTE_P: nat := 1
  const PTE_W: nat := 2
  const PTE_U: nat := 4

  // ----- entries

  function PdNo(va: nat): nat { va / PTSPAN }

  function PtNo(va: nat): nat { va / PGSIZE % ENTRIES }

  function PdeCreate(table: nat): nat {
    Or(Or(Or(table * PGSIZE, PTE_U), PTE_P), PTE_W)
  }

  function PteCreateUser(frame: nat, writable: bool): nat {
    Or(Or(Or(frame * PGSIZE, PTE_P), if writable then PTE_W else 0), PTE_U)
  }

  /** pde_get_pt and pte_get_page: the frame an entry points to. */
  function FrameOf(entry: nat): nat { And(entry, PTE_ADDR) / PGSIZE }

  predicate Present(entry: nat) { And(entry, PTE_P) != 0 }

  predicate Writable(entry: nat) { And(entry, PTE_W) != 0 }

  function RoundDown(x: nat, d: nat): nat
    requires d > 0
  {
    x / d * d
  }

  /** Masking off the low k bits of a number below 2^n. */
  lemma {:induction false} AndHighMask(x: nat, n: nat, k: nat)
    requires k <= n && x < Pow2(n)
    ensures Pow2(k) <= Pow2(n) && And(x, Pow2(n) - Pow2(k)) == RoundDown(x, Pow2(k))
    decreases k
  {
    hide And, RoundDown;
    Pow2Monotone(k, n);
    if k == 0 {
      AndLowMask(x, n);
      SmallMod(x, Pow2(n));
    } else {
      AndHighMask(x / 2, n - 1, k - 1);
      AndEven(x, Pow2(n - 1) - Pow2(k - 1));
      HighStep(x, Pow2(k - 1));
    }
  }

  lemma SmallMod(x: nat, p: nat)
    requires x < p
    ensures x % p == x && RoundDown(x, 1) == x
  {
  }

  lemma AndEven(x: nat, m: nat)
    ensures And(x, 2 * m) == 2 * And(x / 2, m)
  {
    assert 2 * m / 2 == m && 2 * m % 2 == 0;
  }

  lemma HighStep(x: nat, q: nat)
    requires q > 0
    ensures 2 * RoundDown(x / 2, q) == RoundDown(x, 2 * q)
  {
    DivTwice(x, q);
    var a := x / 2 / q;
    assert 2 * (a * q) == a * (2 * q);
  }

  lemma DivTwice(x: nat, q: nat)
    requires q > 0
    ensures x / 2 / q == x / (2 * q)
  {
    var a, b := x / 2 / q, x / 2 % q;
    assert x / 2 == a * q + b;
    ModUnique(x, 2 * q, a, 2 * b + x % 2);
  }

  lemma Pow2Values()
    ensures Pow2(0) == 1 && Pow2(1) == 2 && Pow2(2) == 4 && Pow2(12) == PGSIZE && Pow2(20) == 0x10_0000 && Pow2(32) == W32
  {
    assert Pow2(3) == 2 * Pow2(2) == 8;
    Pow2Add(3, 3);
    Pow2Add(6, 6);
    Pow2Add(8, 12);
    Pow2Add(6, 2);
    Pow2Add(12, 20);
  }

  /** The flag bits of a word whose low three bits are r. */
  lemma Flags(z: nat, r: nat)
    requires r < 8
    ensures r % 2 == 0 ==> Or(8 * z + r, PTE_P) == 8 * z + r + 1
    ensures r % 4 < 2 ==> Or(8 * z + r, PTE_W) == 8 * z + r + 2
    ensures r < 4 ==> Or(8 * z + r, PTE_U) == 8 * z + r + 4
    ensures Present(8 * z + r) <==> r % 2 == 1
    ensures Writable(8 * z + r) <==> r % 4 >= 2
  {
    hide Or, And, Bit;
    Pow2Values();
    FlagBits(z, r);
    var w := 8 * z + r;
    if r % 2 == 0 { OrPow2(w, 0); }
    if r % 4 < 2 { OrPow2(w, 1); }
    if r < 4 { OrPow2(w, 2); }
    AndPow2(w, 0);
    AndPow2(w, 1);
  }

  lemma FlagBits(z: nat, r: nat)
    requires r < 8
    ensures Bit(8 * z + r, 0) <==> r % 2 == 1
    ensures Bit(8 * z + r, 1) <==> r % 4 >= 2
    ensures Bit(8 * z + r, 2) <==> r >= 4
  {
    hide Bit;
    var c, b, a := r / 4, r / 2 % 2, r % 2;
    var y := 2 * z + c;
    var x := 2 * y + b;
    assert 8 * z + r == 2 * x + a;
    BitCons(x, a);
    BitCons(y, b);
    BitCons(z, c);
  }

  lemma BitCons(x: nat, a: nat)
    requires a < 2
    ensures Bit(2 * x + a, 0) <==> a == 1
    ensures Bit(2 * x + a, 1) == Bit(x, 0) && Bit(2 * x + a, 2) == Bit(x, 1)
  {
    assert (2 * x + a) / 2 == x;
  }

  lemma FrameIs(entry: nat)
    requires entry < W32
    ensures FrameOf(entry) == entry / PGSIZE
  {
    Pow2Values();
    AndHighMask(entry, 32, 12);
  }

  lemma PdeIs(table: nat)
    requires table < 0x10_0000
    ensures var e := PdeCreate(table); e == table * PGSIZE + 7 && 0 < e < W32 && Present(e) && FrameOf(e) == table
  {
    hide Or, And, Present, Writable, FrameOf;
    var z := table * 512;
    assert table * PGSIZE == 8 * z;
    Flags(z, 0);
    Flags(z, 4);
    Flags(z, 5);
    Flags(z, 7);
    FrameIs(8 * z + 7);
  }

  lemma PteIs(frame: nat, writable: bool)
    requires frame < 0x10_0000
    ensures var e := PteCreateUser(frame, writable);
            && e == frame * PGSIZE + 5 + (if writable then 2 else 0) && e < W32
            && Present(e) && Writable(e) == writable && FrameOf(e) == frame
  {
    hide Or, And, Present, Writable, FrameOf;
    var z := frame * 512;
    assert frame * PGSIZE == 8 * z;
    Flags(z, 0);
    Flags(z, 1);
    if writable {
      Flags(z, 3);
      Flags(z, 7);
      FrameIs(8 * z + 7);
    } else {
      OrNone(8 * z + 1);
      Flags(z, 5);
      FrameIs(8 * z + 5);
    }
  }

  lemma OrNone(w: nat)
    ensures Or(w, 0) == w
  {
  }

  // ----- the tables

  datatype Vm = Vm(pd: seq<nat>, tables: map<nat, seq<nat>>)

  ghost predicate TableOk(tables: map<nat, seq<nat>>, t: nat) {
    t in tables && |tables[t]| == ENTRIES && forall j :: 0 <= j < ENTRIES ==> tables[t][j] < W32
  }

  /** Each user directory entry is zero or points to a table of its own. */
  ghost predicate VmOk(vm: Vm)
    ensures VmOk(vm) ==> |vm.pd| == ENTRIES
  {
    && |vm.pd| == ENTRIES
    && (forall i :: 0 <= i < USER_PDES && vm.pd[i] != 0 ==>
          vm.pd[i] < W32 && Present(vm.pd[i]) && TableOk(vm.tables, FrameOf(vm.pd[i])))
    && (forall i, j :: 0 <= i < j < USER_PDES && vm.pd[i] != 0 && vm.pd[j] != 0 ==> FrameOf(vm.pd[i]) != FrameOf(vm.pd[j]))
  }

  lemma UserVa(va: nat)
    requires va < PHYS_BASE
    ensures PdNo(va) < USER_PDES && PtNo(va) < ENTRIES
  {
  }

  /** The page table entry for a user address; zero where there is no table. */
  ghost function Pte(vm: Vm, va: nat): (e: nat)
    requires VmOk(vm) && va < PHYS_BASE
    ensures e < W32
  {
    UserVa(va);
    var pde := vm.pd[PdNo(va)];
    if pde == 0 then 0 else
      assert TableOk(vm.tables, FrameOf(pde));
      vm.tables[FrameOf(pde)][PtNo(va)]
  }

  /** A directory entry for a new, zeroed table. */
  function WithTable(vm: Vm, i: nat, t: nat): Vm
    requires i < |vm.pd|
  {
    Vm(vm.pd[i := PdeCreate(t)], vm.tables[t := seq(ENTRIES, _ => 0)])
  }

  lemma TableAdded(vm: Vm, i: nat, t: nat)
    requires VmOk(vm) && i < USER_PDES && vm.pd[i] == 0 && t !in vm.tables && t < 0x10_0000
    ensures VmOk(WithTable(vm, i, t))
    ensures forall va: nat :: va < PHYS_BASE ==> Pte(WithTable(vm, i, t), va) == Pte(vm, va)
  {
    hide PdeCreate, FrameOf, Present, PdNo, PtNo;
    PdeIs(t);
    var v := WithTable(vm, i, t);
    assert TableOk(v.tables, t);
    forall j | 0 <= j < USER_PDES && vm.pd[j] != 0 ensures TableOk(v.tables, FrameOf(vm.pd[j])) && FrameOf(vm.pd[j]) != t {
      assert TableOk(vm.tables, FrameOf(vm.pd[j]));
    }
    assert VmOk(v);
    forall va: nat | va < PHYS_BASE ensures Pte(v, va) == Pte(vm, va) {
      UserVa(va);
    }
  }

  /** The entry for va replaced, where it has a table. */
  function WithPte(vm: Vm, va: nat, e: nat): Vm
    requires |vm.pd| == ENTRIES && va < PHYS_BASE
  {
    UserVa(va);
    var t := FrameOf(vm.pd[PdNo(va)]);
    if t in vm.tables && PtNo(va) < |vm.tables[t]| then
      var table: seq<nat> := vm.tables[t][PtNo(va) := e];
      vm.(tables := vm.tables[t := table])
    else
      vm
  }

  /** Writing the entry of one page changes the mapping of that page and of no other. */
  lemma PteWritten(vm: Vm, va: nat, e: nat)
    requires VmOk(vm) && va < PHYS_BASE && vm.pd[PdNo(va)] != 0 && e < W32
    ensures VmOk(WithPte(vm, va, e))
    ensures forall u: nat :: u < PHYS_BASE ==>
              Pte(WithPte(vm, va, e), u) == if u / PGSIZE == va / PGSIZE then e else Pte(vm, u)
  {
    hide FrameOf, Present, PdNo, PtNo;
    UserVa(va);
    var v := WithPte(vm, va, e);
    var t := FrameOf(vm.pd[PdNo(va)]);
    assert TableOk(vm.tables, t);
    forall s | TableOk(vm.tables, s) ensures TableOk(v.tables, s) {
    }
    assert VmOk(v);
    forall u: nat | u < PHYS_BASE ensures Pte(v, u) == if u / PGSIZE == va / PGSIZE then e else Pte(vm, u) {
      UserVa(u);
      SamePage(u, va);
      if vm.pd[PdNo(u)] != 0 {
        assert TableOk(vm.tables, FrameOf(vm.pd[PdNo(u)]));
      }
    }
  }

  /** A page is named by its directory index and its table index. */
  lemma SamePage(u: nat, va: nat)
    ensures u / PGSIZE == va / PGSIZE <==> PdNo(u) == PdNo(va) && PtNo(u) == PtNo(va)
  {
    assert PdNo(u) == u / PGSIZE / ENTRIES && PdNo(va) == va / PGSIZE / ENTRIES;
  }
}
