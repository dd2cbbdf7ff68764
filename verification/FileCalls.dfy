/** What each call of the file system does, and when it succeeds (filesys/filesys.c), said of directory slots, sectors and
    open counts; and that open counts are opens less closes in every run. */
module FileCalls {
  import opened Options
  import opened FileSystem
  import opened FileOps
  import Bitmaps
  import InodeIO

  /** Slot i is the first in use with the name, and the scan reaches it. */
  predicate Named(dir: seq<Entry>, name: Name, seen: nat, i: nat) {
    && i < |dir| && i < seen && dir[i].inUse && dir[i].name == name
    && forall j :: 0 <= j < i ==> !(dir[j].inUse && dir[j].name == name)
  }

  function OpenCount(s: State, f: nat): nat {
    if f in s.open then s.open[f].openCnt else 0
  }

  lemma LookupNamed(dir: seq<Entry>, name: Name, seen: nat)
    ensures var r := Lookup(Seen(dir, seen), name, 0);
            && (r.Some? ==> Named(dir, name, seen, r.value))
            && forall i: nat :: Named(dir, name, seen, i) ==> r == Some(i)
  {
    hide Lookup, Seen;
    LookupSeen(dir, name, seen);
    var r := Lookup(dir, name, 0);
    forall i: nat | Named(dir, name, seen, i) ensures r == Some(i) {
      assert r.Some? && !(r.value < i) && !(i < r.value);
    }
  }

  // ----- open

  /** One more opener of f. */
  function OneMore(s: State, f: nat): State
    requires f in s.inodes
  {
    s.(open := s.open[f := OpenInode(OpenCount(s, f) + 1, false, s.inodes[f])])
  }

  /** The file opened is that of the first slot seen with the name. It is opened exactly when there is such a slot, the root
      directory and a file structure can be had, and the inode is open already or can be had. Its count goes up by one
      and nothing else changes; a call that fails changes nothing. */
  lemma OpenIs(s: State, name: Name, env: OpenEnv)
    requires Inv(s)
    ensures var (t, r) := Open(s, name, env);
            && (forall i: nat :: Named(s.dir, name, env.seen, i) ==>
                  var f := s.dir[i].sector;
                  r == if env.dirOpened && env.fileMemory && (f in s.open || env.inodeMemory) then Some(f) else None)
            && (r.Some? ==> exists i: nat :: Named(s.dir, name, env.seen, i) && s.dir[i].sector == r.value)
            && (r.Some? ==> r.value in s.inodes && t == OneMore(s, r.value))
            && (r.None? ==> t == s)
  {
    hide Inv, Lookup, Seen, InodeOpen, InodeClose, CanClose, InDir, Live, Named, OneMore;
    LookupNamed(s.dir, name, env.seen);
    var i := Lookup(Seen(s.dir, env.seen), name, 0);
    if i.Some? {
      var f := s.dir[i.value].sector;
      NamedLive(s, i.value);
      InodeOpenIs(s, f, env.inodeMemory);
      if f in s.open || env.inodeMemory {
        OpenCanClose(s, f, env.inodeMemory);
      }
    }
  }

  lemma InodeOpenIs(s: State, f: nat, memory: bool)
    requires Inv(s) && f in s.inodes && InDir(s.dir, f)
    ensures InodeOpen(s, f, memory) == if f in s.open || memory then (OneMore(s, f), true) else (s, false)
  {
    assert OpenOk(s, f);
  }

  /** Reopening an open file adds one to its count, if a file structure can be had, and changes nothing else. */
  lemma ReopenIs(s: State, f: nat, fileMemory: bool)
    requires Inv(s) && f in s.open
    ensures Reopen(s, f, fileMemory) ==
            if fileMemory then s.(open := s.open[f := s.open[f].(openCnt := OpenCount(s, f) + 1)]) else s
  {
    hide Inv;
    OpenIsOk(s, f);
    OpenCanClose(s, f, true);
  }

  // ----- remove

  /** The sectors of f become free, and no others. */
  ghost predicate Freed(s: State, t: State, f: nat) {
    |t.freeMap| == |s.freeMap| && forall k :: 0 <= k < |s.freeMap| ==> t.freeMap[k] == (s.freeMap[k] && !Owns(s, f, k))
  }

  /** A remove succeeds exactly when a slot seen has the name, the root directory can be had, the file's inode is open or
      can be had, and the entry can be written. The first such slot is erased. A file that is open stays so, with its count
      and its sectors, and is marked removed; one that is not gives up its sectors at once. A call that fails changes
      nothing. */
  lemma RemoveIs(s: State, name: Name, env: RemoveEnv)
    requires Inv(s)
    ensures var (t, ok) := Remove(s, name, env);
            && (ok ==> exists i: nat :: Named(s.dir, name, env.seen, i))
            && (!ok ==> t == s)
            && forall i: nat :: Named(s.dir, name, env.seen, i) ==>
                 var f := s.dir[i].sector;
                 && (ok <==> env.dirOpened && env.entryWritten && (f in s.open || env.inodeMemory))
                 && (ok ==>
                       && t.dir == s.dir[i := s.dir[i].(inUse := false)] && t.inodes == s.inodes
                       && (f in s.open ==> t.open == s.open[f := s.open[f].(removed := true)] && t.freeMap == s.freeMap)
                       && (f !in s.open ==> t.open == s.open && Freed(s, t, f)))
  {
    hide Inv, Lookup, Seen, InodeOpen, InodeClose, CanClose, InDir, Live, Named, OneMore, Unlinked, Freed;
    LookupNamed(s.dir, name, env.seen);
    var i := if env.dirOpened then Lookup(Seen(s.dir, env.seen), name, 0) else None;
    if i.Some? {
      var f := s.dir[i.value].sector;
      NamedLive(s, i.value);
      InodeOpenIs(s, f, env.inodeMemory);
      if f in s.open || env.inodeMemory {
        OpenCanClose(s, f, env.inodeMemory);
        OpenKeeps(s, f, env.inodeMemory);
        UnlinkClosed(s, i.value);
      }
    }
  }

  lemma UnlinkClosed(s: State, i: nat)
    requires Inv(s) && i < |s.dir| && s.dir[i].inUse && s.dir[i].sector in s.inodes
    requires Inv(OneMore(s, s.dir[i].sector))
    ensures var f := s.dir[i].sector;
            var u := Unlinked(OneMore(s, f), i);
            && CanClose(u, f)
            && (var t := InodeClose(u, f);
                && t.dir == s.dir[i := s.dir[i].(inUse := false)] && t.inodes == s.inodes
                && (f in s.open ==> t.open == s.open[f := s.open[f].(removed := true)] && t.freeMap == s.freeMap)
                && (f !in s.open ==> t.open == s.open && Freed(s, t, f)))
  {
    hide FileOk, Disjoint, Live, InDir;
    var f := s.dir[i].sector;
    assert OpenOk(s, f);
    hide Inv;
    var s1 := OneMore(s, f);
    UnlinkKeeps(s1, i);
    CloseAllowed(Unlinked(s1, i), f);
    var t := InodeClose(Unlinked(s1, i), f);
    assert f !in s.open ==> t.open == s.open;
    assert f in s.open ==> t.open == s.open[f := s.open[f].(removed := true)];
  }

  // ----- create

  /** f is the lowest free sector, and the n sectors from d on are free apart from it. */
  ghost predicate Room(freeMap: seq<bool>, f: nat, d: nat, n: nat) {
    && f < |freeMap| && !freeMap[f] && (forall k :: 0 <= k < f ==> freeMap[k])
    && d + n <= |freeMap| && forall k :: d <= k < d + n ==> !freeMap[k] && k != f
  }

  /** What dir_add finds: a name it takes, in no slot its first scan sees, and a slot that is free or that its second scan
      stops at. */
  ghost predicate Addable(dir: seq<Entry>, name: Name, seenNames: nat, seenSlots: nat) {
    && ValidName(name)
    && (forall i :: 0 <= i < |dir| && i < seenNames ==> !(dir[i].inUse && dir[i].name == name))
    && (seenSlots < |dir| || exists i :: 0 <= i < |dir| && !dir[i].inUse)
  }

  lemma AddSlotIff(dir: seq<Entry>, name: Name, seenNames: nat, seenSlots: nat, written: bool)
    ensures AddSlot(dir, name, seenNames, seenSlots, written).Some? <==> written && Addable(dir, name, seenNames, seenSlots)
  {
    hide Lookup, FreeSlot, Seen;
    LookupSeen(dir, name, seenNames);
    FreeSlotSeen(dir, seenSlots);
  }

  lemma RoomIff(freeMap: seq<bool>, n: nat)
    ensures var a := Allocate(freeMap, 1, true);
            (exists f: nat, d: nat :: Room(freeMap, f, d, n)) <==>
            a.Some? && Allocate(Marked(freeMap, a.value, 1), n, true).Some?
  {
    hide Marked, Bitmaps.FirstFit;
    var a := Allocate(freeMap, 1, true);
    if f: nat, d: nat :| Room(freeMap, f, d, n) {
      assert Bitmaps.AllEqual(freeMap, f, 1, false);
      assert a.Some? && a.value == f by { assert !freeMap[a.value]; }
      assert Bitmaps.AllEqual(Marked(freeMap, f, 1), d, n, false);
    }
    if a.Some? && Allocate(Marked(freeMap, a.value, 1), n, true).Some? {
      RoomFound(freeMap, n);
    }
  }

  /** The sectors that two allocations in a row find. */
  lemma RoomFound(freeMap: seq<bool>, n: nat)
    requires Allocate(freeMap, 1, true).Some? && Allocate(Marked(freeMap, Allocate(freeMap, 1, true).value, 1), n, true).Some?
    ensures var f := Allocate(freeMap, 1, true).value; Room(freeMap, f, Allocate(Marked(freeMap, f, 1), n, true).value, n)
  {
    hide Marked, Bitmaps.FirstFit;
    var f := Allocate(freeMap, 1, true).value;
    var marked := Marked(freeMap, f, 1);
    var d := Allocate(marked, n, true).value;
    forall k | 0 <= k < f ensures freeMap[k] {
      assert !Bitmaps.AllEqual(freeMap, k, 1, false);
    }
    forall k | d <= k < d + n ensures !freeMap[k] && k != f {
      assert !marked[k] && marked[f];
    }
  }

  /** filesys_create gets as far as dir_add. */
  ghost predicate InodeMade(s: State, size: nat, env: CreateEnv) {
    && env.dirOpened && env.sectorWritten && env.memory && env.dataWritten
    && exists f: nat, d: nat :: Room(s.freeMap, f, d, InodeIO.Sectors(size))
  }

  /** A create succeeds exactly when everything it needs can be had: the root directory, a sector for the inode, the
      memory, a run of sectors for the data beside it, and a slot for the name. */
  lemma CreateIff(s: State, name: Name, size: nat, env: CreateEnv)
    ensures Create(s, name, size, env).1 <==>
            && InodeMade(s, size, env) && env.entryWritten
            && Addable(s.dir, name, env.seenNames, env.seenSlots)
  {
    hide Room, Addable, AddSlot, Marked, InodeIO.Sectors;
    RoomIff(s.freeMap, InodeIO.Sectors(size));
    AddSlotIff(s.dir, name, env.seenNames, env.seenSlots, env.entryWritten);
  }

  /** From s to t, slot i gets the name and a new inode in sector f, with its data from sector d on; these sectors are marked
      and no others. */
  ghost predicate Adds(s: State, t: State, name: Name, size: nat, f: nat, d: nat, i: nat) {
    && i < |s.dir|
    && t == State(t.freeMap, s.inodes[f := InodeIO.Extent(d, size)], s.dir[i := Entry(true, name, f)], s.open)
    && |t.freeMap| == |s.freeMap| && forall k: nat :: k < |t.freeMap| ==> t.freeMap[k] == (s.freeMap[k] || Owns(t, f, k))
  }

  /** What a create adds: an inode in the lowest free sector, with its data in sectors that were free; these are marked and
      no others, and nobody has the file open. */
  lemma CreateIs(s: State, name: Name, size: nat, env: CreateEnv)
    requires Create(s, name, size, env).1
    ensures var t := Create(s, name, size, env).0;
            exists f: nat, d: nat, i: nat ::
              Room(s.freeMap, f, d, InodeIO.Sectors(size)) && Adds(s, t, name, size, f, d, i)
  {
    hide AddSlot, Marked, Lookup, FreeSlot, Seen, Bitmaps.FirstFit;
    var t, n := Create(s, name, size, env).0, InodeIO.Sectors(size);
    var f := Allocate(s.freeMap, 1, true).value;
    var withInode := Marked(s.freeMap, f, 1);
    var d := Allocate(withInode, n, true).value;
    var i := AddSlot(s.dir, name, env.seenNames, env.seenSlots, env.entryWritten).value;
    RoomFound(s.freeMap, n);
    assert Adds(s, t, name, size, f, d, i);
  }

  /** A create that fails leaves the free map as it was exactly when it fails before dir_add or the file has no data: after
      that the data's sectors stay marked. */
  lemma CreateLeaksIff(s: State, name: Name, size: nat, env: CreateEnv)
    requires Inv(s) && !Create(s, name, size, env).1
    ensures Create(s, name, size, env).0.freeMap == s.freeMap <==> !(InodeMade(s, size, env) && size > 0)
  {
    hide Inv, Room, AddSlot, Marked, Released;
    var n := InodeIO.Sectors(size);
    RoomIff(s.freeMap, n);
    var a := Allocate(s.freeMap, 1, true);
    if a.Some? {
      UnmarkedFree(s, a.value);
      var t := s.(freeMap := Marked(s.freeMap, a.value, 1));
      if InodeMade(s, size, env) {
        var d := Allocate(t.freeMap, n, true).value;
        var u := Undone(WithInode(t, a.value, d, size), a.value);
        if size > 0 {
          assert !t.freeMap[d] && d != a.value && u.freeMap[d];
        } else {
          assert u.freeMap == s.freeMap;
        }
      } else {
        assert Undone(t, a.value).freeMap == s.freeMap;
      }
    }
  }

  /** A device can be formatted exactly when it has room for the two inodes, the map's file and the directory's sector;
      these come first, and every other sector is free. */
  lemma FormatIs(n: nat)
    ensures var m := 3 + InodeIO.Sectors(4 * ((n + 31) / 32));
            && (Format(n).Some? <==> m <= n)
            && (m <= n ==> |Format(n).value.freeMap| == n && forall k :: 0 <= k < n ==> (Format(n).value.freeMap[k] <==> k < m))
            && (m <= n ==> |Format(n).value.dir| == 16 && forall i :: 0 <= i < 16 ==> !Format(n).value.dir[i].inUse)
  {
    hide Marked, Bitmaps.FirstFit;
    if n >= 2 {
      var blank := Marked(seq(n, _ => false), 0, 2);
      var x := InodeIO.Sectors(4 * ((n + 31) / 32));
      Lowest(blank, 2, x);
      assert InodeIO.Sectors(16 * 20) == 1;
      if 2 + x <= n {
        Lowest(Marked(blank, 2, x), 2 + x, 1);
      }
    }
  }

  lemma Lowest(freeMap: seq<bool>, m: nat, cnt: nat)
    requires m <= |freeMap| && cnt > 0 && forall k :: 0 <= k < |freeMap| ==> (freeMap[k] <==> k < m)
    ensures Allocate(freeMap, cnt, true) == if m + cnt <= |freeMap| then Some(m) else None
  {
    hide Bitmaps.FirstFit;
    var r := Allocate(freeMap, cnt, true);
    assert r.Some? ==> !freeMap[r.value] && r.value >= m;
    if m + cnt <= |freeMap| {
      assert Bitmaps.AllEqual(freeMap, m, cnt, false);
    }
  }

  // ----- open counts

  ghost function Opens(s: State, act: Action, f: nat): nat
    requires Inv(s)
  {
    match act
    case DoOpen(name, env) => if Open(s, name, env).1 == Some(f) then 1 else 0
    case DoReopen(g, memory) => if g == f && memory then 1 else 0
    case _ => 0
  }

  function Closes(act: Action, f: nat): nat {
    if act == DoClose(f) then 1 else 0
  }

  lemma StepCounts(s: State, act: Action, f: nat)
    requires Inv(s) && Enabled(s, act)
    ensures OpenCount(Next(s, act), f) + Closes(act, f) == OpenCount(s, f) + Opens(s, act, f)
  {
    hide Inv, Create, Remove, Open, Reopen, Named, CanClose, Freed;
    match act
    case DoCreate(name, size, env) => CreateOpen(s, name, size, env);
    case DoOpen(name, env) => OpenIs(s, name, env);
    case DoReopen(g, memory) => ReopenIs(s, g, memory);
    case DoRemove(name, env) => RemoveIs(s, name, env);
    case DoClose(g) =>
      CloseAllowed(s, g);
      CloseCounts(s, g, f);
  }

  lemma CloseCounts(s: State, g: nat, f: nat)
    requires CanClose(s, g)
    ensures OpenCount(InodeClose(s, g), f) == OpenCount(s, f) - if f == g then 1 else 0
  {
  }

  ghost function RunOpens(s: State, run: seq<Action>, f: nat): nat
    requires Inv(s)
    decreases |run|
  {
    if run == [] || !Enabled(s, run[0]) then 0
    else
      NextKeeps(s, run[0]);
      Opens(s, run[0], f) + RunOpens(Next(s, run[0]), run[1..], f)
  }

  function RunCloses(run: seq<Action>, f: nat): nat {
    if run == [] then 0 else Closes(run[0], f) + RunCloses(run[1..], f)
  }

  /** In every run a file's open count is what it was, plus the opens and reopens that gave it, less its closes; so an inode
      stays in the list of open inodes exactly while somebody has it open. */
  lemma {:induction false} CountsInEveryRun(s: State, run: seq<Action>, f: nat)
    requires Inv(s) && After(s, run).Some?
    ensures var t := After(s, run).value;
            && OpenCount(t, f) + RunCloses(run, f) == OpenCount(s, f) + RunOpens(s, run, f)
            && (f in t.open <==> RunCloses(run, f) < OpenCount(s, f) + RunOpens(s, run, f))
    decreases |run|
  {
    hide Inv, Next, Opens, Closes;
    if run == [] {
      PositiveCount(s, f);
    } else {
      NextKeeps(s, run[0]);
      StepCounts(s, run[0], f);
      CountsInEveryRun(Next(s, run[0]), run[1..], f);
    }
  }

  lemma PositiveCount(s: State, f: nat)
    requires Inv(s)
    ensures f in s.open <==> OpenCount(s, f) > 0
  {
    assert OpenOk(s, f);
  }
}
