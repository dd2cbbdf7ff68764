/** A directory as the bytes of a file (filesys/directory.c): 20-byte entries, read and written through the inode. */
module DirectoryFile {
  import opened Options
  import opened Bytes
  import opened InodeIO
  import opened FileSystem
  import FileNames

  const ENTRY: nat := 20             // sizeof (struct dir_entry)

  // ----- entries

  function LittleEndian(b: seq<byte>): nat
    requires |b| == 4
  {
    b[0] as nat + 256 * (b[1] as nat + 256 * (b[2] as nat + 256 * b[3] as nat))
  }

  function Word(v: nat): (b: seq<byte>)
    requires v < 0x1_0000_0000
    ensures |b| == 4 && LittleEndian(b) == v
  {
    var u := v / 256;
    var t := u / 256;
    [(v % 256) as byte, (u % 256) as byte, (t % 256) as byte, (t / 256) as byte]
  }

  function Decode(b: seq<byte>): Entry
    requires |b| == ENTRY
  {
    Entry(b[19] != 0, CString(b[4..19]), LittleEndian(b[..4]))
  }

  /** dir_add's changes to the entry it last read: what strlcpy does not overwrite stays. */
  function Named(b: seq<byte>, name: Name, sector: nat): (r: seq<byte>)
    requires |b| == ENTRY && |name| <= NAME_MAX && sector < 0x1_0000_0000
    ensures |r| == ENTRY
  {
    Word(sector) + name + [0] + b[4 + |name| + 1..19] + [1]
  }

  lemma NamedDecodes(b: seq<byte>, name: Name, sector: nat)
    requires |b| == ENTRY && |name| <= NAME_MAX && NoNull(name) && sector < 0x1_0000_0000
    ensures Decode(Named(b, name, sector)) == Entry(true, name, sector)
  {
    var r := Named(b, name, sector);
    assert r[..4] == Word(sector);
    assert r[4..19][..|name|] == name && r[4..19][|name|] == 0;
    CStringIs(r[4..19], |name|);
  }

  lemma ErasedDecodes(b: seq<byte>)
    requires |b| == ENTRY
    ensures Decode(b[19 := 0]) == Decode(b).(inUse := false)
  {
    assert b[19 := 0][..4] == b[..4] && b[19 := 0][4..19] == b[4..19];
  }

  // ----- the file

  function Slots(file: seq<byte>): (s: seq<Entry>)
    ensures |s| == |file| / ENTRY
    ensures forall i :: 0 <= i < |s| ==> s[i] == Decode(Slice(file, ENTRY * i, ENTRY))
  {
    seq(|file| / ENTRY, i requires 0 <= i < |file| / ENTRY => Decode(Slice(file, ENTRY * i, ENTRY)))
  }

  /** Writing one entry changes that slot and no other. */
  lemma SlotWritten(file: seq<byte>, i: nat, b: seq<byte>)
    requires i < |file| / ENTRY && |b| == ENTRY
    ensures Slots(Overwrite(file, ENTRY * i, b)) == Slots(file)[i := Decode(b)]
  {
    hide Decode, Overwrite, Slice, Slots;
    var after := Overwrite(file, ENTRY * i, b);
    forall j | 0 <= j < |file| / ENTRY ensures Slots(after)[j] == Slots(file)[i := Decode(b)][j] {
      if j == i {
        assert Slice(after, ENTRY * i, ENTRY) == b;
      } else {
        assert Slice(after, ENTRY * j, ENTRY) == Slice(file, ENTRY * j, ENTRY);
      }
    }
  }

  /** A read or write of an entry moves all of it exactly when the entry lies in the file and there is a bounce buffer. */
  lemma EntryMoved(length: nat, i: nat, bounce: bool)
    requires length % ENTRY == 0
    ensures Transferred(length, ENTRY, ENTRY * i, bounce) == if bounce && i < length / ENTRY then ENTRY else 0
  {
  }

  class Directory {
    const device: Device
    const x: InodeIO.Extent

    ghost predicate Valid()
      reads this, device
    {
      OnDisk(x, |device.sectors|) && x.length % ENTRY == 0
    }

    ghost function File(): seq<byte>
      reads this, device
      requires Valid()
    {
      Contents(device.sectors, x)
    }

    constructor (device: Device, x: InodeIO.Extent)
      requires OnDisk(x, |device.sectors|) && x.length % ENTRY == 0
      ensures Valid() && this.device == device && this.x == x
    {
      this.device, this.x := device, x;
    }

    /** One turn of a directory scan: the entry at slot i, if all of it could be read. */
    method ReadEntry(i: nat, e: array<byte>, bounce: bool) returns (ok: bool)
      requires Valid() && e.Length == ENTRY
      modifies e
      ensures Valid() && File() == old(File()) && ok == (bounce && i < |Slots(File())|)
      ensures ok ==> e[..] == Slice(File(), ENTRY * i, ENTRY) && Slots(File())[i] == Decode(e[..])
    {
      hide Contents, Transferred, OnDisk, Decode, Slots;
      EntryMoved(x.length, i, bounce);
      var n := device.ReadAt(x, e, ENTRY, ENTRY * i, bounce);
      ok := n == ENTRY;
      if ok {
        assert e[..] == Slice(File(), ENTRY * i, ENTRY);
      }
    }

    /** lookup, when the reads of the first seen slots get a bounce buffer. */
    method LookupEntry(name: Name, seen: nat, e: array<byte>) returns (r: Option<nat>)
      requires Valid() && e.Length == ENTRY
      modifies e
      ensures Valid() && File() == old(File())
      ensures r == Lookup(Seen(Slots(File()), seen), name, 0)
      ensures r.Some? ==> e[..] == Slice(File(), ENTRY * r.value, ENTRY)
    {
      hide Decode, Slots, Slice, Directory.Valid, Directory.File;
      ghost var dir := Seen(Slots(File()), seen);
      var i := 0;
      var ok := ReadEntry(i, e, i < seen);
      while ok
        invariant Valid() && File() == old(File()) && i <= |dir| && ok == (i < |dir|)
        invariant Lookup(dir, name, i) == Lookup(dir, name, 0)
        invariant ok ==> e[..] == Slice(File(), ENTRY * i, ENTRY) && dir[i] == Decode(e[..])
        decreases |dir| - i
      {
        if e[19] != 0 && InUseName(e[..]) == name {
          DecodedName(e[..]);
          return Some(i);
        }
        DecodedName(e[..]);
        i := i + 1;
        ok := ReadEntry(i, e, i < seen);
      }
      r := None;
    }

    /** dir_add's scan: the first slot seen not to be in use, or the first that could not be read. */
    method FindSlot(seen: nat, e: array<byte>) returns (i: nat)
      requires Valid() && e.Length == ENTRY
      modifies e
      ensures Valid() && File() == old(File())
      ensures i == FreeSlot(Seen(Slots(File()), seen), 0)
    {
      hide Decode, Slots, Slice, Directory.Valid, Directory.File;
      ghost var dir := Seen(Slots(File()), seen);
      i := 0;
      var ok := ReadEntry(i, e, i < seen);
      while ok
        invariant Valid() && File() == old(File()) && i <= |dir| && ok == (i < |dir|)
        invariant FreeSlot(dir, i) == FreeSlot(dir, 0)
        invariant ok ==> dir[i] == Decode(e[..])
        decreases |dir| - i
      {
        DecodedName(e[..]);
        if e[19] == 0 {
          return;
        }
        i := i + 1;
        ok := ReadEntry(i, e, i < seen);
      }
    }

    /** Writes an entry back; an entry at the end of the directory does not make it grow. */
    method WriteEntry(i: nat, b: seq<byte>, bounce: bool) returns (ok: bool)
      requires Valid() && |b| == ENTRY
      modifies device
      ensures Valid() && ok == (bounce && i < |old(Slots(File()))|)
      ensures Slots(File()) == if ok then old(Slots(File()))[i := Decode(b)] else old(Slots(File()))
    {
      hide Contents, Transferred, OnDisk, Decode, Slots, Overwrite, Elsewhere;
      EntryMoved(x.length, i, bounce);
      ghost var file := File();
      var n := device.WriteAt(x, 0, b, ENTRY, ENTRY * i, bounce);
      ok := n == ENTRY;
      if ok {
        assert b[..ENTRY] == b;
        SlotWritten(file, i, b);
      } else {
        OverwriteNone(file, ENTRY * i, b[..0]);
      }
    }

    /** dir_add, when its two scans see only so many slots before a read comes up short. */
    method AddEntry(name: Name, sector: nat, seenNames: nat, seenSlots: nat, written: bool) returns (ok: bool)
      requires Valid() && NoNull(name) && sector < 0x1_0000_0000
      modifies device
      ensures Valid() && ok == AddSlot(old(Slots(File())), name, seenNames, seenSlots, written).Some?
      ensures Slots(File()) == FileNames.Added(old(Slots(File())), name, sector, seenNames, seenSlots, written)
    {
      hide Slots, Decode, Named, Seen, Directory.Valid, Directory.File;
      if name == [] || |name| > NAME_MAX {
        return false;
      }
      var e := new byte[ENTRY];
      var found := LookupEntry(name, seenNames, e);
      if found.Some? {
        return false;
      }
      var i := FindSlot(seenSlots, e);
      NamedDecodes(e[..], name, sector);
      ok := WriteEntry(i, Named(e[..], name, sector), written);
    }

    /** dir_remove's erasure of the entry its lookup read. */
    method EraseEntry(i: nat, e: array<byte>, written: bool) returns (ok: bool)
      requires Valid() && e.Length == ENTRY && i < |Slots(File())| && Slots(File())[i] == Decode(e[..])
      modifies device, e
      ensures Valid() && ok == written
      ensures var dir := old(Slots(File())); Slots(File()) == if ok then dir[i := dir[i].(inUse := false)] else dir
    {
      hide Slots, Decode, Directory.Valid, Directory.File;
      ghost var b := e[..];
      ErasedDecodes(b);
      e[19] := 0;
      assert e[..] == b[19 := 0];
      ok := WriteEntry(i, e[..], written);
    }
  }

  lemma OverwriteNone(file: seq<byte>, at: nat, b: seq<byte>)
    requires b == []
    ensures Overwrite(file, at, b) == file
  {
  }

  /** The string that strcmp compares with. */
  function InUseName(b: seq<byte>): Name
    requires |b| == ENTRY
  {
    CString(b[4..19])
  }

  lemma DecodedName(b: seq<byte>)
    requires |b| == ENTRY
    ensures Decode(b).inUse == (b[19] != 0) && Decode(b).name == InUseName(b)
  {
  }
}
