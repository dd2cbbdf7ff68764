/** The file system as the kernel runs it (filesys/filesys.c, directory.c, inode.c, free-map.c): a bitmap, directory slots
    and a list of open inodes, changed in place. Parameters say which memory requests and free-map writes succeed. */
module KernelFiles {
  import opened Options
  import opened Bitmaps
  import opened FileSystem
  import opened FileOps
  import opened StableOrder
  import opened Lists
  import InodeIO

  class Files {
    const freeMap: Bitmap
    var inodes: map<nat, FileSystem.Extent>   // what inode_create wrote, by sector
    var dir: seq<Entry>                       // the root directory's slots
    var openInodes: seq<nat>                  // the list of open inodes, by sector
    var open: map<nat, OpenInode>             // their contents

    ghost predicate Ready()
      reads this, freeMap, freeMap.bits
    {
      freeMap.Valid() && Distinct(openInodes) && forall f: nat :: f in openInodes <==> f in open
    }

    ghost function Now(): State
      reads this, freeMap, freeMap.bits
      requires Ready()
    {
      State(freeMap.View(), inodes, dir, open)
    }

    ghost predicate Valid()
      reads this, freeMap, freeMap.bits
    {
      Ready() && Inv(Now())
    }

    constructor (freeMap: Bitmap)
      requires freeMap.Valid()
      ensures Ready() && this.freeMap == freeMap && Now() == State(freeMap.View(), map[], [], map[])
    {
      this.freeMap := freeMap;
      inodes, dir, openInodes, open := map[], [], [], map[];
    }

    // ----- free-map.c

    method FreeMapAllocate(cnt: nat, written: bool) returns (r: Option<nat>)
      requires Ready()
      modifies freeMap.bits
      ensures Ready() && r == Allocate(old(freeMap.View()), cnt, written)
      ensures freeMap.View() == if r.Some? then Marked(old(freeMap.View()), r.value, cnt) else old(freeMap.View())
    {
      hide FirstFit, SetRange, Bitmap.Valid, Bitmap.View, Distinct;
      ghost var v := freeMap.View();
      r := freeMap.ScanAndFlip(0, cnt, false);
      if r.Some? && !written {
        SetBack(v, r.value, cnt);
        freeMap.SetMultiple(r.value, cnt, false);
        r := None;
      }
    }

    /** The bits are all set, so the assertion in free_map_release holds. */
    method FreeMapRelease(sector: nat, cnt: nat)
      requires Ready() && AllUsed(freeMap.View(), sector, cnt)
      modifies freeMap.bits
      ensures Ready() && freeMap.View() == Released(old(freeMap.View()), sector, cnt)
    {
      hide SetRange, Bitmap.Valid, Bitmap.View, Distinct;
      var free := freeMap.Contains(sector, cnt, false);
      assert !free;
      freeMap.SetMultiple(sector, cnt, false);
    }

    // ----- directory.c

    /** lookup; the reads of the first `seen` slots get their bounce buffer, and the next comes up short. */
    method LookupName(name: Name, seen: nat) returns (r: Option<nat>)
      ensures r == Lookup(Seen(dir, seen), name, 0)
    {
      ghost var d := Seen(dir, seen);
      var i := 0;
      while i < |dir| && i < seen
        invariant i <= |d| && Lookup(d, name, i) == Lookup(d, name, 0)
      {
        assert dir[i] == d[i];
        if dir[i].inUse && name == dir[i].name {
          return Some(i);
        }
        i := i + 1;
      }
      r := None;
    }

    /** dir_add; its scan for the name and its scan for a free slot see so many slots. */
    method DirAdd(name: Name, sector: nat, seenNames: nat, seenSlots: nat, written: bool) returns (ok: bool)
      requires Ready()
      modifies this`dir
      ensures Ready() && ok == AddSlot(old(dir), name, seenNames, seenSlots, written).Some?
      ensures dir == if ok then old(dir)[AddSlot(old(dir), name, seenNames, seenSlots, written).value := Entry(true, name, sector)]
                     else old(dir)
    {
      hide Seen;
      if name == [] || |name| > NAME_MAX {
        return false;
      }
      var found := LookupName(name, seenNames);
      if found.Some? {
        return false;
      }
      ghost var d := Seen(dir, seenSlots);
      var i := 0;
      while i < |dir| && i < seenSlots && dir[i].inUse
        invariant i <= |d| && FreeSlot(d, i) == FreeSlot(d, 0) && dir == old(dir)
      {
        assert dir[i] == d[i];
        i := i + 1;
      }
      assert i < |d| ==> dir[i] == d[i];
      if i == |dir| || !written {
        return false;
      }
      dir := dir[i := Entry(true, name, sector)];
      ok := true;
    }

    // ----- inode.c

    method OpenInodeAt(f: nat, memory: bool) returns (ok: bool)
      requires Ready() && f in inodes
      modifies this`open, this`openInodes
      ensures Ready() && (Now(), ok) == InodeOpen(old(Now()), f, memory)
    {
      hide Bitmap.Valid, Bitmap.View;
      var i := 0;
      while i < |openInodes|
        invariant i <= |openInodes| && f !in openInodes[..i] && openInodes == old(openInodes) && open == old(open)
      {
        if openInodes[i] == f {
          assert f in openInodes;
          open := open[f := open[f].(openCnt := open[f].openCnt + 1)];
          return true;
        }
        i := i + 1;
      }
      assert openInodes[..i] == openInodes;
      if !memory {
        return false;
      }
      openInodes := [f] + openInodes;
      open := open[f := OpenInode(1, false, inodes[f])];
      ok := true;
    }

    method CloseInodeAt(f: nat)
      requires Ready() && CanClose(Now(), f)
      modifies this`open, this`openInodes, freeMap.bits
      ensures Ready() && Now() == InodeClose(old(Now()), f)
    {
      hide Bitmap.Valid, Bitmap.View, Distinct, Released;
      var o := open[f];
      if o.openCnt > 1 {
        open := open[f := o.(openCnt := o.openCnt - 1)];
      } else {
        openInodes := Without(openInodes, f);
        open := open - {f};
        if o.removed {
          FreeMapRelease(f, 1);
          FreeMapRelease(o.data.start, InodeIO.Sectors(o.data.length));
        }
      }
    }

    /** inode_create's effect on the free map and the inodes. */
    method CreateInode(sector: nat, length: nat, memory: bool, written: bool) returns (ok: bool)
      requires Ready()
      modifies this`inodes, freeMap.bits
      ensures Ready()
      ensures var d := if memory then Allocate(old(freeMap.View()), InodeIO.Sectors(length), written) else None;
              && ok == d.Some?
              && Now() == if ok then WithInode(old(Now()), sector, d.value, length) else old(Now())
    {
      hide Bitmap.Valid, Bitmap.View, Distinct, Allocate, Marked, FirstFit;
      if !memory {
        return false;
      }
      var start := FreeMapAllocate(InodeIO.Sectors(length), written);
      if start.None? {
        return false;
      }
      inodes := inodes[sector := InodeIO.Extent(start.value, length)];
      ok := true;
    }

    // ----- filesys.c, inside an open root directory

    method CreateInRoot(name: Name, size: nat, env: CreateEnv) returns (ok: bool)
      requires Ready() && env.dirOpened
      modifies this`inodes, this`dir, freeMap.bits
      ensures Ready() && (Now(), ok) == Create(old(Now()), name, size, env)
    {
      hide Bitmap.Valid, Bitmap.View, Distinct, Allocate, Marked, AddSlot, Released, FirstFit;
      ghost var s := Now();
      var sector := FreeMapAllocate(1, env.sectorWritten);
      if sector.None? {
        return false;
      }
      var f := sector.value;
      ghost var t := Now();
      assert t == s.(freeMap := Marked(s.freeMap, f, 1)) && t.freeMap[f];
      ok := CreateInode(f, size, env.memory, env.dataWritten);
      if ok {
        assert freeMap.View()[f];
        ok := DirAdd(name, f, env.seenNames, env.seenSlots, env.entryWritten);
      }
      if !ok && f != 0 {
        FreeMapRelease(f, 1);
      }
    }

    method RemoveInRoot(name: Name, env: RemoveEnv) returns (ok: bool)
      requires Valid() && env.dirOpened
      modifies this, freeMap.bits
      ensures Ready() && (Now(), ok) == Remove(old(Now()), name, env)
    {
      hide Inv, Bitmap.Valid, Bitmap.View, Distinct, InodeOpen, InodeClose, CanClose, Released, InDir, Live;
      ghost var s := Now();
      var i := LookupName(name, env.seen);
      if i.None? {
        return false;
      }
      var f := dir[i.value].sector;
      NamedLive(s, i.value);
      OpenKeeps(s, f, env.inodeMemory);
      InodeOpened(s, f, env.inodeMemory);
      var isOpen := OpenInodeAt(f, env.inodeMemory);
      if !isOpen {
        return false;
      }
      ghost var t := Now();
      if !env.entryWritten {
        CloseAllowed(t, f);
        CloseInodeAt(f);
        return false;
      }
      UnlinkKeeps(t, i.value);
      dir := dir[i.value := dir[i.value].(inUse := false)];
      open := open[f := open[f].(removed := true)];
      assert Now() == Unlinked(t, i.value);
      CloseAllowed(Now(), f);
      CloseInodeAt(f);
      ok := true;
    }

    // ----- filesys.c

    /** dir_open_root: the inode, then memory for the directory structure. */
    method OpenRoot(rootMemory: bool, dirMemory: bool) returns (ok: bool)
      requires Valid()
      modifies this`open, this`openInodes, freeMap.bits
      ensures Valid() && ok == RootOpens(old(Now()), rootMemory, dirMemory)
      ensures Now() == if ok then WithRoot(old(Now()), RootInode(old(Now()))) else old(Now())
    {
      hide Inv, Bitmap.Valid, Bitmap.View, Distinct, InodeClose, CanClose, InodeOpen, WithRoot, RootInode;
      ghost var s := Now();
      RootOpened(s, rootMemory);
      InodeOpened(s, ROOT_DIR, rootMemory);
      ok := OpenInodeAt(ROOT_DIR, rootMemory);
      if ok && !dirMemory {
        OpenCanClose(s, ROOT_DIR, rootMemory);
        CloseInodeAt(ROOT_DIR);
        ok := false;
      }
    }

    /** filesys_create. */
    method CreateFile(name: Name, size: nat, rootMemory: bool, dirMemory: bool, env: CreateEnv) returns (ok: bool)
      requires Valid() && env.dirOpened == RootOpens(Now(), rootMemory, dirMemory)
      modifies this, freeMap.bits
      ensures Valid() && (Now(), ok) == Create(old(Now()), name, size, env)
    {
      hide Inv, Bitmap.Valid, Bitmap.View, Distinct, InodeClose, CanClose, Create, WithRoot, RootInode, SameRoot;
      ghost var s := Now();
      CreateKeeps(s, name, size, env);
      CreateAround(s, RootInode(s), name, size, env);
      var isOpen := OpenRoot(rootMemory, dirMemory);
      if !isOpen {
        return false;
      }
      ok := CreateInRoot(name, size, env);
      RootCloses(s, Create(s, name, size, env).0);
      CloseInodeAt(ROOT_DIR);
    }

    /** filesys_open: the file's inode. */
    method OpenFile(name: Name, rootMemory: bool, dirMemory: bool, env: OpenEnv) returns (r: Option<nat>)
      requires Valid() && env.dirOpened == RootOpens(Now(), rootMemory, dirMemory)
      modifies this, freeMap.bits
      ensures Valid() && (Now(), r) == Open(old(Now()), name, env)
    {
      hide Inv, Bitmap.Valid, Bitmap.View, Distinct, InodeClose, CanClose, LookupOpen, WithRoot, RootInode, SameRoot;
      ghost var s := Now();
      FilesOpen(s, name, env);
      var isOpen := OpenRoot(rootMemory, dirMemory);
      if !isOpen {
        return None;
      }
      LookupAround(s, RootInode(s), name, env.seen, env.inodeMemory);
      LookupOpenKeeps(s, name, env.seen, env.inodeMemory);
      r := LookupInRoot(name, env.seen, env.inodeMemory);
      RootCloses(s, LookupOpen(s, name, env.seen, env.inodeMemory).0);
      CloseInodeAt(ROOT_DIR);
      if r.Some? && !env.fileMemory {
        CloseAllowed(Now(), r.value);
        CloseInodeAt(r.value);
        r := None;
      }
    }

    /** dir_lookup. */
    method LookupInRoot(name: Name, seen: nat, memory: bool) returns (r: Option<nat>)
      requires Valid()
      modifies this`open, this`openInodes
      ensures Ready() && (Now(), r) == LookupOpen(old(Now()), name, seen, memory)
    {
      hide Inv, Bitmap.Valid, Bitmap.View, Distinct, InodeOpen, InDir, Live;
      var i := LookupName(name, seen);
      if i.None? {
        return None;
      }
      NamedLive(Now(), i.value);
      var f := dir[i.value].sector;
      var ok := OpenInodeAt(f, memory);
      r := if ok then Some(f) else None;
    }

    /** filesys_remove. */
    method RemoveFile(name: Name, rootMemory: bool, dirMemory: bool, env: RemoveEnv) returns (ok: bool)
      requires Valid() && env.dirOpened == RootOpens(Now(), rootMemory, dirMemory)
      modifies this, freeMap.bits
      ensures Valid() && (Now(), ok) == Remove(old(Now()), name, env)
    {
      hide Inv, Bitmap.Valid, Bitmap.View, Distinct, InodeClose, CanClose, Remove, WithRoot, RootInode, SameRoot;
      ghost var s := Now();
      FilesRemove(s, name, env);
      RemoveClosed(s, name, env);
      var isOpen := OpenRoot(rootMemory, dirMemory);
      if !isOpen {
        return false;
      }
      RemoveAround(s, RootInode(s), name, env);
      ok := RemoveInRoot(name, env);
      RootCloses(s, Remove(s, name, env).0);
      CloseInodeAt(ROOT_DIR);
    }
  }

  // ----- opening the root directory around a call changes nothing

  predicate RootOpens(s: State, rootMemory: bool, dirMemory: bool) {
    (ROOT_DIR in s.open || rootMemory) && dirMemory
  }

  function WithRoot(s: State, o: OpenInode): State {
    s.(open := s.open[ROOT_DIR := o])
  }

  /** The root's inode as inode_open leaves it. */
  function RootInode(s: State): OpenInode {
    if ROOT_DIR in s.open then s.open[ROOT_DIR].(openCnt := s.open[ROOT_DIR].openCnt + 1)
    else OpenInode(1, false, if ROOT_DIR in s.inodes then s.inodes[ROOT_DIR] else InodeIO.Extent(0, 0))
  }

  lemma RootOpened(s: State, memory: bool)
    requires Inv(s)
    ensures ROOT_DIR in s.inodes
    ensures InodeOpen(s, ROOT_DIR, memory).1 <==> ROOT_DIR in s.open || memory
    ensures ROOT_DIR in s.open || memory ==> InodeOpen(s, ROOT_DIR, memory).0 == WithRoot(s, RootInode(s))
    ensures Inv(InodeOpen(s, ROOT_DIR, memory).0)
  {
    assert Live(s, ROOT_DIR) && FileOk(s, ROOT_DIR);
    OpenKeeps(s, ROOT_DIR, memory);
  }

  predicate SameRoot(s: State, x: State) {
    (ROOT_DIR in x.open <==> ROOT_DIR in s.open) && (ROOT_DIR in x.open ==> x.open[ROOT_DIR] == s.open[ROOT_DIR])
  }

  lemma RootCloses(s: State, x: State)
    requires Inv(s) && SameRoot(s, x)
    ensures var y := WithRoot(x, RootInode(s)); CanClose(y, ROOT_DIR) && InodeClose(y, ROOT_DIR) == x
  {
    assert OpenOk(s, ROOT_DIR);
    assert InodeClose(WithRoot(x, RootInode(s)), ROOT_DIR).open == x.open;
  }

  lemma CreateAround(s: State, o: OpenInode, name: Name, size: nat, env: CreateEnv)
    ensures !env.dirOpened ==> Create(s, name, size, env) == (s, false)
    ensures SameRoot(s, Create(s, name, size, env).0)
    ensures Create(WithRoot(s, o), name, size, env)
         == (WithRoot(Create(s, name, size, env).0, o), Create(s, name, size, env).1)
  {
    hide Allocate, AddSlot, Marked, Released;
  }

  lemma OpenAround(s: State, o: OpenInode, f: nat, memory: bool)
    requires f in s.inodes && f > ROOT_DIR
    ensures SameRoot(s, InodeOpen(s, f, memory).0)
    ensures InodeOpen(WithRoot(s, o), f, memory)
         == (WithRoot(InodeOpen(s, f, memory).0, o), InodeOpen(s, f, memory).1)
  {
    assert InodeOpen(WithRoot(s, o), f, memory).0.open == WithRoot(InodeOpen(s, f, memory).0, o).open;
  }

  lemma CloseAround(s: State, o: OpenInode, f: nat)
    requires CanClose(s, f) && f > ROOT_DIR
    ensures SameRoot(s, InodeClose(s, f)) && CanClose(WithRoot(s, o), f)
    ensures InodeClose(WithRoot(s, o), f) == WithRoot(InodeClose(s, f), o)
  {
    assert InodeClose(WithRoot(s, o), f).open == WithRoot(InodeClose(s, f), o).open;
  }

  lemma UnlinkAround(s: State, o: OpenInode, i: nat)
    requires i < |s.dir| && s.dir[i].sector in s.open && s.dir[i].sector > ROOT_DIR
    ensures s.dir[i].sector in Unlinked(s, i).open
    ensures SameRoot(s, Unlinked(s, i)) && Unlinked(WithRoot(s, o), i) == WithRoot(Unlinked(s, i), o)
  {
    assert Unlinked(WithRoot(s, o), i).open == WithRoot(Unlinked(s, i), o).open;
  }

  lemma LookupAround(s: State, o: OpenInode, name: Name, seen: nat, memory: bool)
    requires Inv(s) && Inv(WithRoot(s, o))
    ensures SameRoot(s, LookupOpen(s, name, seen, memory).0)
    ensures LookupOpen(WithRoot(s, o), name, seen, memory)
         == (WithRoot(LookupOpen(s, name, seen, memory).0, o), LookupOpen(s, name, seen, memory).1)
  {
    hide Inv, InodeOpen, InDir, Live, OpenOk;
    var i := Lookup(Seen(s.dir, seen), name, 0);
    if i.Some? {
      NamedLive(s, i.value);
      OpenAround(s, o, s.dir[i.value].sector, memory);
    }
  }

  lemma RemoveClosed(s: State, name: Name, env: RemoveEnv)
    requires Inv(s)
    ensures !env.dirOpened ==> Remove(s, name, env) == (s, false)
  {
    hide Inv, InodeOpen, InodeClose, CanClose, Unlinked;
  }

  lemma RemoveAround(s: State, o: OpenInode, name: Name, env: RemoveEnv)
    requires Inv(s) && Inv(WithRoot(s, o))
    ensures SameRoot(s, Remove(s, name, env).0)
    ensures Remove(WithRoot(s, o), name, env) == (WithRoot(Remove(s, name, env).0, o), Remove(s, name, env).1)
  {
    hide Inv, InodeOpen, InodeClose, CanClose, Unlinked, InDir, Live, OpenOk, FileOk;
    var i := if env.dirOpened then Lookup(Seen(s.dir, env.seen), name, 0) else None;
    if i.Some? {
      var f := s.dir[i.value].sector;
      NamedLive(s, i.value);
      OpenAround(s, o, f, env.inodeMemory);
      InodeOpened(s, f, env.inodeMemory);
      OpenKeeps(s, f, env.inodeMemory);
      var t := InodeOpen(s, f, env.inodeMemory).0;
      if InodeOpen(s, f, env.inodeMemory).1 {
        CloseAllowed(t, f);
        CloseAround(t, o, f);
        UnlinkKeeps(t, i.value);
        UnlinkAround(t, o, i.value);
        CloseAllowed(Unlinked(t, i.value), f);
        CloseAround(Unlinked(t, i.value), o, f);
      }
    }
  }

  lemma SetBack(v: seq<bool>, i: nat, cnt: nat)
    requires i + cnt <= |v| && AllEqual(v, i, cnt, false)
    ensures SetRange(SetRange(v, i, cnt, true), i, cnt, false) == v
  {
  }

  lemma InodeOpened(s: State, f: nat, memory: bool)
    requires f in s.inodes
    ensures var (t, ok) := InodeOpen(s, f, memory);
            t.dir == s.dir && t.freeMap == s.freeMap && t.inodes == s.inodes && (ok <==> f in t.open) && (!ok ==> t == s)
  {
  }
}
