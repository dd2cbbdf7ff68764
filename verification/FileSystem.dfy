/** Files as sectors (filesys/filesys.c, directory.c, inode.c, free-map.c): the free map, the on-disk inodes, the root
    directory's slots and the open inodes, under create, open, reopen, remove and close. An inode is named by its sector.
    Calls do not overlap. Memory and free-map writes may fail; each operation's environment says which. */
module FileSystem {
  import opened Options
  import Bitmaps
  import InodeIO
  import Bytes

  type Extent = InodeIO.Extent
  type Name = seq<Bytes.byte>         // a file name, without its null byte

  const FREE_MAP: nat := 0
  const ROOT_DIR: nat := 1
  const NAME_MAX: nat := 14

  datatype Entry = Entry(inUse: bool, name: Name, sector: nat)

  datatype OpenInode = OpenInode(openCnt: nat, removed: bool, data: Extent)

  datatype State = State(freeMap: seq<bool>, inodes: map<nat, Extent>, dir: seq<Entry>, open: map<nat, OpenInode>)

  // ----- which sectors belong to which file

  predicate InData(x: Extent, k: nat) {
    x.start <= k < x.start + InodeIO.Sectors(x.length)
  }

  predicate Owns(s: State, f: nat, k: nat) {
    k == f || (f in s.inodes && InData(s.inodes[f], k))
  }

  ghost predicate InDir(dir: seq<Entry>, f: nat) {
    exists i :: 0 <= i < |dir| && dir[i].inUse && dir[i].sector == f
  }

  /** The files there are: the two fixed ones, those with a name, and those still open. */
  ghost predicate Live(s: State, f: nat) {
    f == FREE_MAP || f == ROOT_DIR || f in s.open || InDir(s.dir, f)
  }

  // ----- the invariant

  ghost predicate FileOk(s: State, f: nat) {
    && f in s.inodes && !InData(s.inodes[f], f)
    && s.inodes[f].start + InodeIO.Sectors(s.inodes[f].length) <= |s.freeMap|
    && forall k: nat :: Owns(s, f, k) ==> k < |s.freeMap| && s.freeMap[k]
  }

  ghost predicate Disjoint(s: State, f: nat, g: nat) {
    forall k: nat :: !(Owns(s, f, k) && Owns(s, g, k))
  }

  predicate ValidName(name: Name) { name != [] && |name| <= NAME_MAX }

  ghost predicate DirOk(dir: seq<Entry>) {
    && (forall i :: 0 <= i < |dir| && dir[i].inUse ==> dir[i].sector > ROOT_DIR && ValidName(dir[i].name))
    && (forall i, j :: 0 <= i < j < |dir| && dir[i].inUse && dir[j].inUse ==> dir[i].sector != dir[j].sector)
  }

  ghost predicate NamesUnique(dir: seq<Entry>) {
    forall i, j :: 0 <= i < j < |dir| && dir[i].inUse && dir[j].inUse ==> dir[i].name != dir[j].name
  }

  ghost predicate OpenOk(s: State, f: nat) {
    f in s.open ==>
      && s.open[f].openCnt > 0 && f in s.inodes && s.open[f].data == s.inodes[f]
      && (s.open[f].removed ==> f > ROOT_DIR && !InDir(s.dir, f))
  }

  ghost predicate Inv(s: State) {
    && FREE_MAP in s.open
    && DirOk(s.dir)
    && (forall f: nat :: Live(s, f) ==> FileOk(s, f))
    && (forall f: nat, g: nat :: Live(s, f) && Live(s, g) && f != g ==> Disjoint(s, f, g))
    && (forall f: nat :: OpenOk(s, f))
  }

  // ----- the free map

  /** free_map_allocate; written says whether the free map file could be written. */
  ghost function Allocate(freeMap: seq<bool>, cnt: nat, written: bool): (r: Option<nat>)
    ensures r.Some? ==> r.value + cnt <= |freeMap| && forall k :: r.value <= k < r.value + cnt ==> !freeMap[k]
  {
    var fit := Bitmaps.FirstFit(freeMap, 0, cnt, false);
    if fit.Some? && written then fit else None
  }

  predicate AllUsed(freeMap: seq<bool>, sector: nat, cnt: nat) {
    sector + cnt <= |freeMap| && forall k :: sector <= k < sector + cnt ==> freeMap[k]
  }

  function Marked(freeMap: seq<bool>, sector: nat, cnt: nat): (r: seq<bool>)
    requires sector + cnt <= |freeMap|
    ensures |r| == |freeMap|
    ensures forall k :: 0 <= k < |r| ==> r[k] == (freeMap[k] || sector <= k < sector + cnt)
  {
    Bitmaps.SetRange(freeMap, sector, cnt, true)
  }

  /** free_map_release, with its assertion that every sector was in use. */
  function Released(freeMap: seq<bool>, sector: nat, cnt: nat): (r: seq<bool>)
    requires AllUsed(freeMap, sector, cnt)
    ensures |r| == |freeMap|
    ensures forall k :: 0 <= k < |r| ==> r[k] == (freeMap[k] && !(sector <= k < sector + cnt))
  {
    Bitmaps.SetRange(freeMap, sector, cnt, false)
  }

  // ----- the directory

  /** The slots a directory scan sees when only its first `seen` reads get their bounce buffer: the scan takes the read that
      comes up short for the end of the directory. */
  function Seen(dir: seq<Entry>, seen: nat): (r: seq<Entry>)
    ensures |r| <= |dir| && r == dir[..|r|] && |r| == if seen < |dir| then seen else |dir|
  {
    if seen < |dir| then dir[..seen] else dir[..|dir|]
  }

  /** lookup: the first slot in use with the name. */
  function Lookup(dir: seq<Entry>, name: Name, from: nat): (r: Option<nat>)
    requires from <= |dir|
    ensures r.Some? ==> from <= r.value < |dir| && dir[r.value].inUse && dir[r.value].name == name
    ensures forall i :: from <= i < (if r.Some? then r.value else |dir|) ==> !(dir[i].inUse && dir[i].name == name)
    decreases |dir| - from
  {
    if from == |dir| then None
    else if dir[from].inUse && dir[from].name == name then Some(from)
    else Lookup(dir, name, from + 1)
  }

  /** dir_add's search for a free slot; the end of the directory if there is none. */
  function FreeSlot(dir: seq<Entry>, from: nat): (i: nat)
    requires from <= |dir|
    ensures from <= i <= |dir| && (i < |dir| ==> !dir[i].inUse)
    ensures forall j :: from <= j < i ==> dir[j].inUse
    decreases |dir| - from
  {
    if from == |dir| || !dir[from].inUse then from else FreeSlot(dir, from + 1)
  }

  /** The slot dir_add writes, when its two scans see so many slots; None when it fails. A directory does not grow. */
  function AddSlot(dir: seq<Entry>, name: Name, seenNames: nat, seenSlots: nat, written: bool): (r: Option<nat>)
    ensures r.Some? ==> r.value < |dir| && ValidName(name)
  {
    if !ValidName(name) || Lookup(Seen(dir, seenNames), name, 0).Some? then None
    else
      var i := FreeSlot(Seen(dir, seenSlots), 0);
      if i < |dir| && written then Some(i) else None
  }

  lemma {:induction false} LookupPrefix(dir: seq<Entry>, name: Name, from: nat, k: nat)
    requires from <= k <= |dir|
    ensures var r := Lookup(dir, name, from);
            Lookup(dir[..k], name, from) == if r.Some? && r.value < k then r else None
    decreases k - from
  {
    if from < k {
      LookupPrefix(dir, name, from + 1, k);
    }
  }

  /** What a scan finds: the name if its slot is seen, ... */
  lemma LookupSeen(dir: seq<Entry>, name: Name, seen: nat)
    ensures var r := Lookup(dir, name, 0);
            Lookup(Seen(dir, seen), name, 0) == if r.Some? && r.value < seen then r else None
  {
    hide Lookup;
    LookupPrefix(dir, name, 0, |Seen(dir, seen)|);
  }

  /** ... and the first free slot, unless the scan stops before it. */
  lemma FreeSlotSeen(dir: seq<Entry>, seen: nat)
    ensures FreeSlot(Seen(dir, seen), 0) == if FreeSlot(dir, 0) < seen then FreeSlot(dir, 0) else |Seen(dir, seen)|
  {
    hide FreeSlot, Seen;
    var d, f, i := Seen(dir, seen), FreeSlot(dir, 0), FreeSlot(Seen(dir, seen), 0);
    assert forall j :: 0 <= j < |d| ==> d[j] == dir[j];
  }

  // ----- open inodes

  /** inode_open of an inode's sector; memory says whether malloc succeeds, if it is called. */
  function InodeOpen(s: State, f: nat, memory: bool): (State, bool)
    requires f in s.inodes
  {
    if f in s.open then (s.(open := s.open[f := s.open[f].(openCnt := s.open[f].openCnt + 1)]), true)
    else if memory then (s.(open := s.open[f := OpenInode(1, false, s.inodes[f])]), true)
    else (s, false)
  }

  /** What inode_close needs: a removed inode's sectors are all in use, itself and then its data. */
  predicate CanClose(s: State, f: nat) {
    && f in s.open && s.open[f].openCnt > 0
    && (s.open[f].openCnt == 1 && s.open[f].removed ==>
          && AllUsed(s.freeMap, f, 1)
          && AllUsed(Released(s.freeMap, f, 1), s.open[f].data.start, InodeIO.Sectors(s.open[f].data.length)))
  }

  function InodeClose(s: State, f: nat): State
    requires CanClose(s, f)
  {
    var o := s.open[f];
    if o.openCnt > 1 then s.(open := s.open[f := o.(openCnt := o.openCnt - 1)])
    else
      var t := s.(open := s.open - {f});
      if !o.removed then t
      else t.(freeMap := Released(Released(s.freeMap, f, 1), o.data.start, InodeIO.Sectors(o.data.length)))
  }
}
