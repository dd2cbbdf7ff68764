/** The file system's calls (filesys/filesys.c), and what every run of them keeps. */
module FileOps {
  import opened Options
  import opened FileSystem
  import InodeIO

  // ----- the calls

  /** What may fail in filesys_create: opening the root directory, writing the free map for the inode's sector, memory
      for the inode, writing the free map for the data, the reads of dir_add's two scans after so many slots, and writing
      the directory entry. */
  datatype CreateEnv = CreateEnv(dirOpened: bool, sectorWritten: bool, memory: bool, dataWritten: bool,
                                 seenNames: nat, seenSlots: nat, entryWritten: bool)

  /** filesys_create. On failure only the inode's own sector is released. */
  ghost function Create(s: State, name: Name, size: nat, env: CreateEnv): (State, bool) {
    var a := if env.dirOpened then Allocate(s.freeMap, 1, env.sectorWritten) else None;
    if a.None? then (s, false)
    else
      var t := s.(freeMap := Marked(s.freeMap, a.value, 1));
      var d := if env.memory then Allocate(t.freeMap, InodeIO.Sectors(size), env.dataWritten) else None;
      if d.None? then (Undone(t, a.value), false)
      else
        var u := WithInode(t, a.value, d.value, size);
        var slot := AddSlot(u.dir, name, env.seenNames, env.seenSlots, env.entryWritten);
        if slot.None? then (Undone(u, a.value), false)
        else (u.(dir := u.dir[slot.value := Entry(true, name, a.value)]), true)
  }

  /** inode_create, once the data sectors have been found. */
  function WithInode(t: State, sector: nat, start: nat, size: nat): State
    requires start + InodeIO.Sectors(size) <= |t.freeMap|
  {
    t.(freeMap := Marked(t.freeMap, start, InodeIO.Sectors(size)), inodes := t.inodes[sector := InodeIO.Extent(start, size)])
  }

  function Undone(t: State, sector: nat): State
    requires sector < |t.freeMap| && t.freeMap[sector]
  {
    if sector == 0 then t else t.(freeMap := Released(t.freeMap, sector, 1))
  }

  datatype OpenEnv = OpenEnv(dirOpened: bool, seen: nat, inodeMemory: bool, fileMemory: bool)

  /** dir_lookup: the inode opened, if any. */
  ghost function LookupOpen(s: State, name: Name, seen: nat, memory: bool): (State, Option<nat>)
    requires Inv(s)
  {
    var i := Lookup(Seen(s.dir, seen), name, 0);
    if i.None? then (s, None)
    else
      var f := s.dir[i.value].sector;
      NamedLive(s, i.value);
      var (t, ok) := InodeOpen(s, f, memory);
      (t, if ok then Some(f) else None)
  }

  /** filesys_open; without memory for the file structure the inode is closed again. */
  ghost function Open(s: State, name: Name, env: OpenEnv): (State, Option<nat>)
    requires Inv(s)
  {
    if !env.dirOpened then (s, None)
    else
      var (t, f) := LookupOpen(s, name, env.seen, env.inodeMemory);
      if f.None? || env.fileMemory then (t, f)
      else
        LookupOpenKeeps(s, name, env.seen, env.inodeMemory);
        CloseAllowed(t, f.value);
        (InodeClose(t, f.value), None)
  }

  /** file_reopen of an open file. */
  ghost function Reopen(s: State, f: nat, fileMemory: bool): State
    requires Inv(s) && f in s.open
  {
    OpenIsOk(s, f);
    var t := InodeOpen(s, f, true).0;
    if fileMemory then t
    else
      OpenCanClose(s, f, true);
      InodeClose(t, f)
  }

  datatype RemoveEnv = RemoveEnv(dirOpened: bool, seen: nat, inodeMemory: bool, entryWritten: bool)

  /** filesys_remove. */
  ghost function Remove(s: State, name: Name, env: RemoveEnv): (State, bool)
    requires Inv(s)
  {
    var i := if env.dirOpened then Lookup(Seen(s.dir, env.seen), name, 0) else None;
    if i.None? then (s, false)
    else
      var f := s.dir[i.value].sector;
      NamedLive(s, i.value);
      var (t, ok) := InodeOpen(s, f, env.inodeMemory);
      if !ok then (s, false)
      else if !env.entryWritten then
        OpenCanClose(s, f, env.inodeMemory);
        (InodeClose(t, f), false)
      else
        var u := Unlinked(t, i.value);
        OpenKeeps(s, f, env.inodeMemory);
        UnlinkKeeps(t, i.value);
        CloseAllowed(u, f);
        (InodeClose(u, f), true)
  }

  /** The entry erased and the open inode marked removed. */
  function Unlinked(t: State, i: nat): State
    requires i < |t.dir| && t.dir[i].sector in t.open
  {
    var f := t.dir[i].sector;
    t.(dir := t.dir[i := t.dir[i].(inUse := false)], open := t.open[f := t.open[f].(removed := true)])
  }

  ghost function Close(s: State, f: nat): State
    requires Inv(s) && f in s.open
  {
    CloseAllowed(s, f);
    InodeClose(s, f)
  }

  // ----- facts

  lemma NamedLive(s: State, i: nat)
    requires Inv(s) && i < |s.dir| && s.dir[i].inUse
    ensures Live(s, s.dir[i].sector) && s.dir[i].sector > ROOT_DIR && s.dir[i].sector in s.inodes
    ensures InDir(s.dir, s.dir[i].sector)
  {
    assert Live(s, s.dir[i].sector);
    assert FileOk(s, s.dir[i].sector);
  }

  lemma OpenIsOk(s: State, f: nat)
    requires Inv(s) && f in s.open
    ensures Live(s, f) && f in s.inodes && FileOk(s, f) && OpenOk(s, f)
  {
    assert Live(s, f);
  }

  /** The assertions in inode_close's two releases hold. */
  lemma CloseAllowed(s: State, f: nat)
    requires Inv(s) && f in s.open
    ensures CanClose(s, f)
  {
    OpenIsOk(s, f);
    hide Inv;
    var x := s.open[f].data;
    assert Owns(s, f, f);
    assert forall k: nat :: InData(x, k) ==> Owns(s, f, k) && k != f;
  }

  // ----- each step keeps the invariant

  /** Nothing joins the live files, those left keep their inodes, and their sectors stay marked. */
  lemma Kept(s: State, t: State)
    requires Inv(s) && FREE_MAP in t.open && DirOk(t.dir) && |t.freeMap| == |s.freeMap|
    requires forall f: nat :: Live(t, f) ==> Live(s, f) && f in s.inodes && f in t.inodes && t.inodes[f] == s.inodes[f]
    requires forall f: nat, k: nat :: Live(t, f) && Owns(t, f, k) && k < |s.freeMap| && s.freeMap[k] ==> t.freeMap[k]
    requires forall f: nat :: OpenOk(t, f)
    ensures Inv(t)
  {
    hide Live, OpenOk, DirOk;
    forall f: nat | Live(t, f) ensures FileOk(t, f) {
      assert FileOk(s, f);
      assert forall k: nat :: Owns(t, f, k) <==> Owns(s, f, k);
    }
    forall f: nat, g: nat | Live(t, f) && Live(t, g) && f != g ensures Disjoint(t, f, g) {
      assert Disjoint(s, f, g);
      assert forall k: nat :: Owns(t, f, k) <==> Owns(s, f, k);
      assert forall k: nat :: Owns(t, g, k) <==> Owns(s, g, k);
    }
  }

  lemma LiveInodes(s: State)
    requires Inv(s)
    ensures forall f: nat :: Live(s, f) ==> f in s.inodes
  {
    assert forall f: nat :: Live(s, f) ==> FileOk(s, f);
  }

  lemma OpenKeeps(s: State, f: nat, memory: bool)
    requires Inv(s) && f in s.inodes && (f in s.open || f == ROOT_DIR || InDir(s.dir, f))
    ensures Inv(InodeOpen(s, f, memory).0)
  {
    hide FileOk, Disjoint, InDir, DirOk;
    var t := InodeOpen(s, f, memory).0;
    LiveInodes(s);
    forall g: nat ensures OpenOk(t, g) {
      assert OpenOk(s, g);
    }
    hide Inv;
    Kept(s, t);
  }

  lemma OpenCanClose(s: State, f: nat, memory: bool)
    requires Inv(s) && f in s.inodes && (f in s.open || ((f == ROOT_DIR || InDir(s.dir, f)) && memory))
    ensures CanClose(InodeOpen(s, f, memory).0, f)
    ensures InodeClose(InodeOpen(s, f, memory).0, f) == s
  {
    OpenKeeps(s, f, memory);
    CloseAllowed(InodeOpen(s, f, memory).0, f);
    assert OpenOk(s, f);
    hide Inv;
    var u := InodeClose(InodeOpen(s, f, memory).0, f);
    assert u.open == s.open;
  }

  lemma UnlinkKeeps(t: State, i: nat)
    requires Inv(t) && i < |t.dir| && t.dir[i].inUse && t.dir[i].sector in t.open
    ensures Inv(Unlinked(t, i))
  {
    hide FileOk, Disjoint;
    var f, u := t.dir[i].sector, Unlinked(t, i);
    LiveInodes(t);
    Unlinking(t, i);
    forall g: nat ensures OpenOk(u, g) {
      assert OpenOk(t, g);
    }
    hide Inv;
    Kept(t, u);
  }

  lemma Unlinking(t: State, i: nat)
    requires DirOk(t.dir) && i < |t.dir| && t.dir[i].inUse && t.dir[i].sector in t.open
    ensures var u := Unlinked(t, i);
            && DirOk(u.dir) && t.dir[i].sector > ROOT_DIR
            && forall g: nat :: InDir(u.dir, g) <==> InDir(t.dir, g) && g != t.dir[i].sector
  {
    var u := Unlinked(t, i);
    forall g: nat | InDir(t.dir, g) && g != t.dir[i].sector ensures InDir(u.dir, g) {
      var j :| 0 <= j < |t.dir| && t.dir[j].inUse && t.dir[j].sector == g;
      assert u.dir[j].inUse && u.dir[j].sector == g;
    }
  }

  lemma CloseKeeps(s: State, f: nat)
    requires Inv(s) && f in s.open && (f == FREE_MAP ==> s.open[f].openCnt > 1)
    ensures CanClose(s, f) && Inv(InodeClose(s, f))
  {
    hide Disjoint, InDir, DirOk;
    CloseAllowed(s, f);
    LiveInodes(s);
    var t := InodeClose(s, f);
    assert OpenOk(s, f) && Live(s, f);
    forall g: nat ensures OpenOk(t, g) {
      assert OpenOk(s, g);
    }
    forall g: nat, k: nat | Live(t, g) && Owns(t, g, k) && k < |s.freeMap| && s.freeMap[k] ensures t.freeMap[k] {
      if g != f {
        NotTheirs(s, f, g, k);
      }
    }
    hide Inv;
    Kept(s, t);
  }

  lemma NotTheirs(s: State, f: nat, g: nat, k: nat)
    requires Inv(s) && Live(s, f) && Live(s, g) && f != g && Owns(s, g, k)
    ensures !Owns(s, f, k)
  {
    assert Disjoint(s, f, g);
  }

  /** A sector that is not marked is no file's. */
  lemma UnmarkedFree(s: State, k: nat)
    requires Inv(s) && k < |s.freeMap| && !s.freeMap[k]
    ensures forall f: nat :: Live(s, f) ==> !Owns(s, f, k)
    ensures !Live(s, k) && k > ROOT_DIR
  {
    assert forall f: nat :: Live(s, f) ==> FileOk(s, f);
    assert Owns(s, k, k);
    assert Live(s, FREE_MAP) && Live(s, ROOT_DIR);
  }

  /** A file made of sectors that were not marked. */
  lemma FileAdded(s: State, t: State, f: nat, x: Extent, i: nat, name: Name)
    requires Inv(s) && f < |s.freeMap| && !s.freeMap[f] && !InData(x, f)
    requires x.start + InodeIO.Sectors(x.length) <= |s.freeMap|
    requires forall k: nat :: InData(x, k) ==> !s.freeMap[k]
    requires i < |s.dir| && ValidName(name)
    requires |t.freeMap| == |s.freeMap| && forall k :: 0 <= k < |s.freeMap| ==> t.freeMap[k] == (s.freeMap[k] || k == f || InData(x, k))
    requires t == State(t.freeMap, s.inodes[f := x], s.dir[i := Entry(true, name, f)], s.open)
    ensures Inv(t)
  {
    hide DirOk;
    UnmarkedFree(s, f);
    SlotFilled(s.dir, f, i, name);
    forall g: nat | Live(t, g) ensures FileOk(t, g) && (g != f ==> Live(s, g) && forall k: nat :: Owns(t, g, k) <==> Owns(s, g, k)) {
      if g != f {
        assert FileOk(s, g) && t.inodes[g] == s.inodes[g];
        assert forall k: nat :: Owns(t, g, k) <==> Owns(s, g, k);
      } else {
        assert forall k: nat :: Owns(t, f, k) <==> k == f || InData(x, k);
      }
    }
    forall g: nat, h: nat | Live(t, g) && Live(t, h) && g != h ensures Disjoint(t, g, h) {
      if g != f && h != f {
        assert Disjoint(s, g, h);
      } else {
        NewApart(s, t, f, x, if g == f then h else g);
      }
    }
    forall g: nat ensures OpenOk(t, g) {
      assert OpenOk(s, g);
    }
  }

  lemma NewApart(s: State, t: State, f: nat, x: Extent, g: nat)
    requires Inv(s) && f < |s.freeMap| && !s.freeMap[f] && (forall k: nat :: InData(x, k) ==> k < |s.freeMap| && !s.freeMap[k])
    requires Live(s, g) && g != f && f in t.inodes && t.inodes[f] == x && forall k: nat :: Owns(t, g, k) <==> Owns(s, g, k)
    ensures Disjoint(t, f, g)
  {
    assert FileOk(s, g);
  }

  /** A slot that gets a new file's entry; a file it held loses its name. */
  lemma SlotFilled(dir: seq<Entry>, f: nat, i: nat, name: Name)
    requires DirOk(dir) && i < |dir| && ValidName(name) && f > ROOT_DIR && !InDir(dir, f)
    ensures var after := dir[i := Entry(true, name, f)];
            && DirOk(after)
            && forall g: nat :: InDir(after, g) <==> g == f || (InDir(dir, g) && !(dir[i].inUse && dir[i].sector == g))
  {
    var after := dir[i := Entry(true, name, f)];
    assert after[i].inUse && after[i].sector == f;
    forall g: nat | InDir(dir, g) && !(dir[i].inUse && dir[i].sector == g) ensures InDir(after, g) {
      var j :| 0 <= j < |dir| && dir[j].inUse && dir[j].sector == g;
      assert after[j].inUse && after[j].sector == g;
    }
    forall g: nat | InDir(after, g) && g != f ensures InDir(dir, g) && !(dir[i].inUse && dir[i].sector == g) {
      var j :| 0 <= j < |after| && after[j].inUse && after[j].sector == g;
      assert j != i && dir[j].inUse && dir[j].sector == g;
    }
  }

  lemma CreateKeeps(s: State, name: Name, size: nat, env: CreateEnv)
    requires Inv(s)
    ensures Inv(Create(s, name, size, env).0)
  {
    hide Inv, Allocate, AddSlot, Live, DirOk;
    var a := if env.dirOpened then Allocate(s.freeMap, 1, env.sectorWritten) else None;
    if a.Some? {
      var f := a.value;
      UnmarkedFree(s, f);
      var t := s.(freeMap := Marked(s.freeMap, f, 1));
      var d := if env.memory then Allocate(t.freeMap, InodeIO.Sectors(size), env.dataWritten) else None;
      if d.None? {
        assert Undone(t, f).freeMap == s.freeMap;
      } else {
        var x := InodeIO.Extent(d.value, size);
        assert !InData(x, f) by { assert t.freeMap[f]; }
        var u := WithInode(t, f, d.value, size);
        var slot := AddSlot(u.dir, name, env.seenNames, env.seenSlots, env.entryWritten);
        if slot.None? {
          LeakKeeps(s, Undone(u, f), f, x);
        } else {
          FileAdded(s, Create(s, name, size, env).0, f, x, slot.value, name);
        }
      }
    }
  }

  /** The failing path: data sectors stay marked, and an inode lies unused in a free sector. */
  lemma LeakKeeps(s: State, t: State, f: nat, x: Extent)
    requires Inv(s) && f < |s.freeMap| && !s.freeMap[f]
    requires |t.freeMap| == |s.freeMap| && forall k :: 0 <= k < |s.freeMap| && s.freeMap[k] ==> t.freeMap[k]
    requires t == State(t.freeMap, s.inodes[f := x], s.dir, s.open)
    ensures Inv(t)
  {
    hide FileOk, Disjoint, InDir, DirOk;
    UnmarkedFree(s, f);
    LiveInodes(s);
    forall g: nat ensures OpenOk(t, g) {
      assert OpenOk(s, g) && (g in s.open ==> Live(s, g));
    }
    assert FREE_MAP in t.open && DirOk(t.dir);
    hide Inv;
    Kept(s, t);
  }

  // ----- runs

  datatype Action =
    | DoCreate(name: Name, size: nat, create: CreateEnv)
    | DoOpen(name: Name, open: OpenEnv)
    | DoReopen(file: nat, fileMemory: bool)
    | DoRemove(name: Name, remove: RemoveEnv)
    | DoClose(file: nat)

  /** Callers reopen and close only files they have open; the free map's inode stays the kernel's own. */
  predicate Enabled(s: State, act: Action) {
    match act
    case DoReopen(f, _) => f in s.open && f > ROOT_DIR
    case DoClose(f) => f in s.open && f > ROOT_DIR
    case _ => true
  }

  ghost function Next(s: State, act: Action): State
    requires Inv(s) && Enabled(s, act)
  {
    match act
    case DoCreate(name, size, env) => Create(s, name, size, env).0
    case DoOpen(name, env) => Open(s, name, env).0
    case DoReopen(f, memory) => Reopen(s, f, memory)
    case DoRemove(name, env) => Remove(s, name, env).0
    case DoClose(f) => Close(s, f)
  }

  lemma NextKeeps(s: State, act: Action)
    requires Inv(s) && Enabled(s, act)
    ensures Inv(Next(s, act))
  {
    hide Inv, InodeOpen, InodeClose, CanClose, Unlinked, Create, InDir, Live;
    match act
    case DoCreate(name, size, env) => CreateKeeps(s, name, size, env);
    case DoOpen(name, env) => FilesOpen(s, name, env);
    case DoReopen(f, memory) =>
      OpenIsOk(s, f);
      OpenKeeps(s, f, true);
      OpenCanClose(s, f, true);
    case DoRemove(name, env) => FilesRemove(s, name, env);
    case DoClose(f) => CloseKeeps(s, f);
  }

  lemma LookupOpenKeeps(s: State, name: Name, seen: nat, memory: bool)
    requires Inv(s)
    ensures var (t, f) := LookupOpen(s, name, seen, memory);
            Inv(t) && (f.Some? ==> f.value in t.open && f.value > ROOT_DIR)
  {
    hide InDir, Live, DirOk;
    var i := Lookup(Seen(s.dir, seen), name, 0);
    if i.Some? {
      NamedLive(s, i.value);
      hide Inv;
      OpenKeeps(s, s.dir[i.value].sector, memory);
    }
  }

  lemma FilesOpen(s: State, name: Name, env: OpenEnv)
    requires Inv(s)
    ensures Inv(Open(s, name, env).0)
  {
    hide Inv, InodeClose, CanClose, LookupOpen;
    if env.dirOpened {
      LookupOpenKeeps(s, name, env.seen, env.inodeMemory);
      var (t, f) := LookupOpen(s, name, env.seen, env.inodeMemory);
      if f.Some? {
        CloseKeeps(t, f.value);
      }
    }
  }

  lemma FilesRemove(s: State, name: Name, env: RemoveEnv)
    requires Inv(s)
    ensures Inv(Remove(s, name, env).0)
  {
    hide Inv, InodeClose, CanClose, InDir, Live;
    var i := if env.dirOpened then Lookup(Seen(s.dir, env.seen), name, 0) else None;
    if i.Some? {
      var f := s.dir[i.value].sector;
      NamedLive(s, i.value);
      OpenKeeps(s, f, env.inodeMemory);
      if InodeOpen(s, f, env.inodeMemory).1 {
        OpenCanClose(s, f, env.inodeMemory);
        var t := InodeOpen(s, f, env.inodeMemory).0;
        UnlinkKeeps(t, i.value);
        CloseKeeps(Unlinked(t, i.value), f);
      }
    }
  }

  ghost function After(s: State, run: seq<Action>): (r: Option<State>)
    requires Inv(s)
    ensures r.Some? ==> Inv(r.value)
    decreases |run|
  {
    if run == [] then Some(s)
    else if !Enabled(s, run[0]) then None
    else
      NextKeeps(s, run[0]);
      After(Next(s, run[0]), run[1..])
  }

  // ----- what callers may rely on

  /** A file that is open keeps its inode and all its sectors through any step but its own last close, removed or not. */
  lemma OpenStays(s: State, act: Action, f: nat)
    requires Inv(s) && Enabled(s, act) && f in s.open
    requires act.DoClose? && act.file == f ==> s.open[f].openCnt > 1
    ensures var t := Next(s, act);
            && f in t.open && f in s.inodes && f in t.inodes && t.inodes[f] == s.inodes[f]
            && (s.open[f].removed ==> t.open[f].removed)
            && forall k: nat :: Owns(s, f, k) ==> k < |t.freeMap| && t.freeMap[k]
  {
    hide Allocate, AddSlot, InDir, DirOk, FileOk, Disjoint;
    var t := Next(s, act);
    NextKeeps(s, act);
    OpenIsOk(s, f);
    if act.DoCreate? && Allocate(s.freeMap, 1, act.create.sectorWritten).Some? {
      UnmarkedFree(s, Allocate(s.freeMap, 1, act.create.sectorWritten).value);
    }
    hide Inv, Live, CanClose;
    StaysOpen(s, act, f);
    OpenIsOk(t, f);
    FileSectors(t, f);
    assert forall k: nat :: Owns(s, f, k) <==> Owns(t, f, k);
  }

  lemma FileSectors(t: State, f: nat)
    requires FileOk(t, f)
    ensures forall k: nat :: Owns(t, f, k) ==> k < |t.freeMap| && t.freeMap[k]
  {
  }

  lemma StaysOpen(s: State, act: Action, f: nat)
    requires Inv(s) && Enabled(s, act) && f in s.open
    requires act.DoClose? && act.file == f ==> s.open[f].openCnt > 1
    ensures f in Next(s, act).open && (s.open[f].removed ==> Next(s, act).open[f].removed)
  {
    hide Create, Remove, Open, InDir, DirOk, FileOk, Disjoint, Live, CanClose;
    assert OpenOk(s, f);
    hide Inv;
    match act
    case DoCreate(name, size, env) => CreateOpen(s, name, size, env);
    case DoRemove(name, env) => RemoveOpen(s, name, env, f);
    case DoOpen(name, env) => OpenOpen(s, name, env, f);
    case _ =>
  }

  lemma CreateOpen(s: State, name: Name, size: nat, env: CreateEnv)
    ensures Create(s, name, size, env).0.open == s.open
  {
    hide Allocate, AddSlot;
  }

  lemma RemoveOpen(s: State, name: Name, env: RemoveEnv, f: nat)
    requires Inv(s) && f in s.open
    ensures var t := Remove(s, name, env).0; f in t.open && (s.open[f].removed ==> t.open[f].removed)
  {
    hide InDir, DirOk, FileOk, Disjoint, Live, CanClose;
    assert OpenOk(s, f);
    hide Inv;
  }

  lemma OpenOpen(s: State, name: Name, env: OpenEnv, f: nat)
    requires Inv(s) && f in s.open
    ensures var t := Open(s, name, env).0; f in t.open && (s.open[f].removed ==> t.open[f].removed)
  {
    hide InDir, DirOk, FileOk, Disjoint, Live, CanClose;
    assert OpenOk(s, f);
    hide Inv;
  }

  ghost predicate OpenThroughout(s: State, run: seq<Action>, f: nat)
    requires Inv(s)
    decreases |run|
  {
    f in s.open && (run != [] ==>
      Enabled(s, run[0]) && (NextKeeps(s, run[0]); OpenThroughout(Next(s, run[0]), run[1..], f)))
  }

  /** So through any run during which it stays open. */
  lemma {:induction false} SectorsKeptWhileOpen(s: State, run: seq<Action>, f: nat)
    requires Inv(s) && OpenThroughout(s, run, f)
    ensures After(s, run).Some?
    ensures var t := After(s, run).value;
            && f in s.inodes && f in t.inodes && t.inodes[f] == s.inodes[f] && (s.open[f].removed ==> f in t.open && t.open[f].removed)
            && forall k: nat :: Owns(s, f, k) ==> k < |t.freeMap| && t.freeMap[k]
    decreases |run|
  {
    hide Inv, Next, FileOk, Disjoint;
    OpenIsOk(s, f);
    if run == [] {
      FileSectors(s, f);
    } else {
      NextKeeps(s, run[0]);
      var t := Next(s, run[0]);
      LastCloseOnly(s, run[0], f);
      OpenStays(s, run[0], f);
      SectorsKeptWhileOpen(t, run[1..], f);
      assert forall k: nat :: Owns(s, f, k) <==> Owns(t, f, k);
    }
  }

  lemma LastCloseOnly(s: State, act: Action, f: nat)
    requires Inv(s) && Enabled(s, act) && f in s.open && f in Next(s, act).open
    ensures act.DoClose? && act.file == f ==> s.open[f].openCnt > 1
  {
    assert OpenOk(s, f);
  }

  /** The last close of a removed file frees exactly its sectors; of a file that still has its name, none. */
  lemma LastCloseFrees(s: State, f: nat)
    requires Inv(s) && f in s.open && s.open[f].openCnt == 1
    ensures var t := Close(s, f);
            && f !in t.open && |t.freeMap| == |s.freeMap|
            && forall k :: 0 <= k < |s.freeMap| ==> t.freeMap[k] == (s.freeMap[k] && !(s.open[f].removed && Owns(s, f, k)))
  {
    OpenIsOk(s, f);
    CloseAllowed(s, f);
  }

  /** Writing one file changes no byte of another: neither its contents nor its inode's sector. `before` and `after` are
      the disk around a write to file positions lo to hi. */
  lemma WriteTouchesOneFile(s: State, f: nat, g: nat, before: seq<InodeIO.Sector>, after: seq<InodeIO.Sector>, lo: nat, hi: nat)
    requires Inv(s) && Live(s, f) && Live(s, g) && f != g && |before| == |s.freeMap| && f in s.inodes && g in s.inodes
    requires lo <= hi && (lo == hi || hi <= s.inodes[f].length)
    requires InodeIO.Elsewhere(before, after, s.inodes[f], lo, hi)
    ensures InodeIO.OnDisk(s.inodes[g], |before|) && |after| == |before| && g < |before|
    ensures InodeIO.Contents(after, s.inodes[g]) == InodeIO.Contents(before, s.inodes[g]) && after[g] == before[g]
  {
    hide InodeIO.Contents;
    assert FileOk(s, g) && Disjoint(s, f, g);
    hide Inv, Live;
    var x, y := s.inodes[f], s.inodes[g];
    forall k: nat | Owns(s, g, k) ensures k < |before| && after[k] == before[k] {
      assert !Owns(s, f, k);
      forall j | 0 <= j < InodeIO.SECTOR ensures after[k][j] == before[k][j] {
        NotWritten(x, k, j, lo, hi);
      }
    }
    assert Owns(s, g, g);
    var c, d := InodeIO.Contents(after, y), InodeIO.Contents(before, y);
    forall pos | 0 <= pos < y.length ensures c[pos] == d[pos] {
      InodeIO.PosInside(y, pos);
      assert Owns(s, g, y.start + pos / InodeIO.SECTOR);
    }
  }

  lemma NotWritten(x: Extent, k: nat, j: nat, lo: nat, hi: nat)
    requires !InData(x, k) && j < InodeIO.SECTOR && (lo == hi || hi <= x.length)
    ensures !(lo <= (k - x.start) * InodeIO.SECTOR + j < hi)
  {
  }

  // ----- formatting

  /** do_format and free_map_open on a device of n sectors with room for them. */
  ghost function Format(n: nat): Option<State> {
    if n < 2 then None
    else
      var blank := Marked(seq(n, _ => false), 0, 2);
      var mapLength := 4 * ((n + 31) / 32);
      var a := Allocate(blank, InodeIO.Sectors(mapLength), true);
      if a.None? then None
      else
        var withMap := Marked(blank, a.value, InodeIO.Sectors(mapLength));
        var b := Allocate(withMap, InodeIO.Sectors(16 * 20), true);
        if b.None? then None
        else
          var x, y := InodeIO.Extent(a.value, mapLength), InodeIO.Extent(b.value, 16 * 20);
          Some(State(Marked(withMap, b.value, InodeIO.Sectors(16 * 20)), map[FREE_MAP := x, ROOT_DIR := y],
                     seq(16, _ => Entry(false, [], 0)), map[FREE_MAP := OpenInode(1, false, x)]))
  }

  lemma FormatOk(n: nat)
    requires Format(n).Some?
    ensures Inv(Format(n).value)
  {
    hide Allocate, Marked, InodeIO.Sectors;
    var s := Format(n).value;
    var x, y := s.inodes[FREE_MAP], s.inodes[ROOT_DIR];
    var blank := Marked(seq(n, _ => false), 0, 2);
    var withMap := Marked(blank, x.start, InodeIO.Sectors(x.length));
    assert forall k: nat :: InData(x, k) ==> !blank[k] && withMap[k];
    assert forall k: nat :: InData(y, k) ==> !withMap[k];
    FormatFiles(s, x, y);
    assert forall f: nat :: Live(s, f) <==> f == FREE_MAP || f == ROOT_DIR;
  }

  lemma FormatFiles(s: State, x: Extent, y: Extent)
    requires s.inodes == map[FREE_MAP := x, ROOT_DIR := y] && |s.freeMap| >= 2 && s.freeMap[0] && s.freeMap[1]
    requires forall k: nat :: InData(x, k) ==> k > 1 && k < |s.freeMap| && s.freeMap[k] && !InData(y, k)
    requires forall k: nat :: InData(y, k) ==> k > 1 && k < |s.freeMap| && s.freeMap[k]
    requires x.start + InodeIO.Sectors(x.length) <= |s.freeMap| && y.start + InodeIO.Sectors(y.length) <= |s.freeMap|
    ensures FileOk(s, FREE_MAP) && FileOk(s, ROOT_DIR) && Disjoint(s, FREE_MAP, ROOT_DIR) && Disjoint(s, ROOT_DIR, FREE_MAP)
  {
  }
}
