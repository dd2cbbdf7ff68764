/** Reading and writing a file (filesys/inode.c) through whole-sector transfers, against a flat array of bytes. */
module InodeIO {
  import opened Bytes

  const SECTOR: nat := 512

  type Sector = s: seq<byte> | |s| == SECTOR witness seq(SECTOR, _ => 0)

  const ZEROS: Sector := seq(SECTOR, _ => 0)

  /** The on-disk inode's start and length. */
  datatype Extent = Extent(start: nat, length: nat)

  function Sectors(length: nat): nat { (length + SECTOR - 1) / SECTOR }

  predicate OnDisk(x: Extent, sectors: nat) {
    x.start + Sectors(x.length) <= sectors
  }

  // ----- the flat file

  /** The byte at a file position: byte_to_sector, then the offset in the sector. */
  function ByteAt(disk: seq<Sector>, x: Extent, pos: nat): byte
    requires OnDisk(x, |disk|) && pos < x.length
  {
    PosInside(x, pos);
    disk[x.start + pos / SECTOR][pos % SECTOR]
  }

  lemma PosInside(x: Extent, pos: nat)
    requires pos < x.length
    ensures pos / SECTOR < Sectors(x.length) && pos % SECTOR < SECTOR
  {
  }

  function Contents(disk: seq<Sector>, x: Extent): (s: seq<byte>)
    requires OnDisk(x, |disk|)
    ensures |s| == x.length && forall pos :: 0 <= pos < x.length ==> s[pos] == ByteAt(disk, x, pos)
  {
    seq(x.length, pos requires 0 <= pos < x.length => ByteAt(disk, x, pos))
  }

  /** How much of a request lies in the file. */
  function Clip(length: nat, size: int, offset: nat): (n: nat)
    ensures n == 0 || offset + n <= length
  {
    if size <= 0 || offset >= length then 0 else if size < length - offset then size else length - offset
  }

  /** How much is transferred: all of it; without a bounce buffer, only the whole sectors it begins with. */
  function Transferred(length: nat, size: int, offset: nat, bounce: bool): nat {
    var n := Clip(length, size, offset);
    if bounce then n else if offset % SECTOR != 0 then 0 else n / SECTOR * SECTOR
  }

  function Overwrite(s: seq<byte>, offset: nat, bytes: seq<byte>): (r: seq<byte>)
    requires bytes == [] || offset + |bytes| <= |s|
    ensures |r| == |s|
    ensures forall i :: 0 <= i < |r| ==> r[i] == if offset <= i < offset + |bytes| then bytes[i - offset] else s[i]
  {
    if bytes == [] then s else s[..offset] + bytes + s[offset + |bytes|..]
  }

  /** One trip round either loop: how many bytes it moves. */
  function Chunk(length: nat, size: int, offset: nat): int {
    var inodeLeft := length - offset;
    var sectorLeft := SECTOR - offset % SECTOR;
    var minLeft := if inodeLeft < sectorLeft then inodeLeft else sectorLeft;
    if size < minLeft then size else minLeft
  }

  predicate InOneSector(at: nat, chunk: int) { at % SECTOR + chunk <= SECTOR }

  predicate WholeSector(at: nat, chunk: int) { at % SECTOR == 0 && chunk == SECTOR }

  lemma ChunkStep(length: nat, size: int, offset: nat, bounce: bool)
    requires size > 0
    ensures var c := Chunk(length, size, offset);
            && (c <= 0 <==> offset >= length)
            && (c > 0 ==> c <= size && offset + c <= length && InOneSector(offset, c))
            && (c > 0 && (bounce || WholeSector(offset, c)) ==>
                  Transferred(length, size, offset, bounce) == c + Transferred(length, size - c, offset + c, bounce))
            && (c > 0 && !bounce && !WholeSector(offset, c) ==>
                  Transferred(length, size, offset, bounce) == 0)
  {
  }

  /** The n bytes of a file from an offset. */
  function Slice(s: seq<byte>, offset: nat, n: nat): (r: seq<byte>)
    requires n == 0 || offset + n <= |s|
    ensures |r| == n && forall i :: 0 <= i < n ==> r[i] == s[offset + i]
  {
    if n == 0 then [] else s[offset..offset + n]
  }

  /** A buffer whose first n bytes have been read from an offset of the file. */
  function Filled(before: seq<byte>, file: seq<byte>, offset: nat, n: nat): (r: seq<byte>)
    requires n <= |before| && (n == 0 || offset + n <= |file|)
    ensures |r| == |before|
    ensures forall i :: 0 <= i < |r| ==> r[i] == if i < n then file[offset + i] else before[i]
  {
    Slice(file, offset, n) + before[n..]
  }

  /** The bytes of a chunk are consecutive bytes of one sector. */
  lemma ChunkBytes(disk: seq<Sector>, x: Extent, at: nat, chunk: nat)
    requires OnDisk(x, |disk|) && at + chunk <= x.length && InOneSector(at, chunk) && chunk > 0
    ensures x.start + at / SECTOR < |disk|
    ensures Slice(Contents(disk, x), at, chunk) == disk[x.start + at / SECTOR][at % SECTOR..at % SECTOR + chunk]
  {
    PosInside(x, at);
    var c, d := Slice(Contents(disk, x), at, chunk), disk[x.start + at / SECTOR][at % SECTOR..at % SECTOR + chunk];
    forall k | 0 <= k < chunk ensures c[k] == d[k] {
      assert (at + k) / SECTOR == at / SECTOR && (at + k) % SECTOR == at % SECTOR + k;
    }
  }

  /** Every byte of the disk but those at file positions lo to hi is as it was: the rest of the file, the slack after it
      in its last sector, and all other sectors. */
  ghost predicate Elsewhere(before: seq<Sector>, after: seq<Sector>, x: Extent, lo: int, hi: int) {
    && |after| == |before|
    && forall s, k :: 0 <= s < |before| && 0 <= k < SECTOR && !(lo <= (s - x.start) * SECTOR + k < hi) ==>
         after[s][k] == before[s][k]
  }

  lemma ElsewhereTrans(d0: seq<Sector>, d1: seq<Sector>, d2: seq<Sector>, x: Extent, lo: int, mid: int, hi: int)
    requires lo <= mid <= hi && Elsewhere(d0, d1, x, lo, mid) && Elsewhere(d1, d2, x, mid, hi)
    ensures Elsewhere(d0, d2, x, lo, hi)
  {
  }

  ghost predicate SectorReplaced(disk: seq<Sector>, after: seq<Sector>, sec: nat, at: nat, bytes: seq<byte>) {
    && sec < |disk| && at + |bytes| <= SECTOR && |after| == |disk|
    && (forall s :: 0 <= s < |disk| && s != sec ==> after[s] == disk[s])
    && (forall k :: 0 <= k < SECTOR ==> after[sec][k] == if at <= k < at + |bytes| then bytes[k - at] else disk[sec][k])
  }

  /** Replacing a chunk of one sector replaces just that chunk of the file. */
  lemma ContentsWritten(disk: seq<Sector>, after: seq<Sector>, x: Extent, at: nat, bytes: seq<byte>)
    requires OnDisk(x, |disk|) && bytes != [] && at + |bytes| <= x.length && InOneSector(at, |bytes|)
    requires SectorReplaced(disk, after, x.start + at / SECTOR, at % SECTOR, bytes)
    ensures Contents(after, x) == Overwrite(Contents(disk, x), at, bytes)
  {
    hide Contents, Overwrite, InOneSector;
    var c, d := Contents(after, x), Overwrite(Contents(disk, x), at, bytes);
    forall pos | 0 <= pos < x.length ensures c[pos] == d[pos] {
      PosInside(x, pos);
      ChunkWhere(at, |bytes|, pos / SECTOR, pos % SECTOR);
    }
  }

  lemma ElsewhereWritten(disk: seq<Sector>, after: seq<Sector>, x: Extent, at: nat, bytes: seq<byte>)
    requires InOneSector(at, |bytes|)
    requires SectorReplaced(disk, after, x.start + at / SECTOR, at % SECTOR, bytes)
    ensures Elsewhere(disk, after, x, at, at + |bytes|)
  {
    hide InOneSector;
    forall s, k | 0 <= s < |disk| && 0 <= k < SECTOR && !(at <= (s - x.start) * SECTOR + k < at + |bytes|)
      ensures after[s][k] == disk[s][k]
    {
      ChunkWhere(at, |bytes|, s - x.start, k);
    }
  }

  lemma ChunkWhere(at: nat, n: nat, sec: int, k: nat)
    requires InOneSector(at, n) && k < SECTOR
    ensures at <= sec * SECTOR + k < at + n <==> sec == at / SECTOR && at % SECTOR <= k < at % SECTOR + n
    ensures sec == at / SECTOR ==> sec * SECTOR + k - at == k - at % SECTOR
  {
  }

  lemma WriteStep(file: seq<byte>, offset: nat, buffer: seq<byte>, n: nat, chunk: nat)
    requires chunk > 0 && n + chunk <= |buffer| && offset + n + chunk <= |file|
    ensures Overwrite(Overwrite(file, offset, buffer[..n]), offset + n, buffer[n..n + chunk])
         == Overwrite(file, offset, buffer[..n + chunk])
  {
    hide Overwrite;
    var l := Overwrite(Overwrite(file, offset, buffer[..n]), offset + n, buffer[n..n + chunk]);
    assert forall i :: 0 <= i < |file| ==> l[i] == Overwrite(file, offset, buffer[..n + chunk])[i];
  }

  // ----- the loops

  class Device {
    var sectors: seq<Sector>

    /** Copies a chunk out of its sector, straight into the buffer when it is the whole sector. */
    method ReadChunk(x: Extent, buffer: array<byte>, done: nat, at: nat, chunk: nat, bounce: bool) returns (ok: bool)
      requires OnDisk(x, |sectors|) && 0 < chunk && at + chunk <= x.length && InOneSector(at, chunk)
      requires done + chunk <= buffer.Length
      modifies buffer
      ensures sectors == old(sectors) && ok == (bounce || WholeSector(at, chunk))
      ensures buffer[..] == if ok then Overwrite(old(buffer[..]), done, Slice(Contents(sectors, x), at, chunk)) else old(buffer[..])
    {
      hide Contents, Overwrite;
      ChunkBytes(sectors, x, at, chunk);
      var sector, sectorOfs := sectors[x.start + at / SECTOR], at % SECTOR;
      if sectorOfs == 0 && chunk == SECTOR {
        assert sector[0..SECTOR] == sector;
        CopyIn(buffer, done, sector);
      } else {
        if !bounce {
          return false;
        }
        CopyIn(buffer, done, sector[sectorOfs..sectorOfs + chunk]);
      }
      ok := true;
    }

    /** inode_read_at; bounce says whether the bounce buffer can be had. */
    method ReadAt(x: Extent, buffer: array<byte>, size: int, offset: nat, bounce: bool) returns (bytesRead: nat)
      requires OnDisk(x, |sectors|) && size <= buffer.Length
      modifies buffer
      ensures sectors == old(sectors)
      ensures bytesRead == Transferred(x.length, size, offset, bounce) <= buffer.Length
      ensures bytesRead > 0 ==> offset + bytesRead <= x.length
      ensures buffer[..] == Filled(old(buffer[..]), Contents(sectors, x), offset, bytesRead)
    {
      hide *;
      ghost var disk, file := sectors, Contents(sectors, x);
      ghost var before := buffer[..];
      bytesRead := 0;
      var left, at := size, offset;
      FilledNone(before, file, offset);
      while left > 0
        invariant sectors == disk && left == size - bytesRead && at == offset + bytesRead
        invariant bytesRead > 0 ==> at <= x.length && bytesRead <= size
        invariant bytesRead + Transferred(x.length, left, at, bounce) == Transferred(x.length, size, offset, bounce)
        invariant bytesRead <= buffer.Length && buffer[..] == Filled(before, file, offset, bytesRead)
      {
        ChunkStep(x.length, left, at, bounce);
        var chunk := Chunk(x.length, left, at);
        if chunk <= 0 {
          TransferredNone(x.length, left, at, bounce);
          break;
        }
        ReadStep(before, file, offset, bytesRead, chunk);
        var ok := ReadChunk(x, buffer, bytesRead, at, chunk, bounce);
        if !ok {
          break;
        }
        left, at, bytesRead := left - chunk, at + chunk, bytesRead + chunk;
      }
      if left <= 0 {
        TransferredNone(x.length, left, at, bounce);
      }
    }

    /** Writes a chunk into its sector: the whole sector at once, or a copy of it with the chunk replaced. */
    method WriteChunk(x: Extent, buffer: seq<byte>, done: nat, at: nat, chunk: nat, bounce: bool) returns (ok: bool)
      requires OnDisk(x, |sectors|) && 0 < chunk && at + chunk <= x.length && InOneSector(at, chunk)
      requires done + chunk <= |buffer|
      modifies this
      ensures ok == (bounce || WholeSector(at, chunk)) && OnDisk(x, |sectors|)
      ensures !ok ==> sectors == old(sectors)
      ensures ok ==> Contents(sectors, x) == Overwrite(old(Contents(sectors, x)), at, buffer[done..done + chunk])
      ensures ok ==> Elsewhere(old(sectors), sectors, x, at, at + chunk)
    {
      hide Contents, Elsewhere;
      ChunkBytes(sectors, x, at, chunk);
      var sectorIdx, sectorOfs := x.start + at / SECTOR, at % SECTOR;
      var sectorLeft := SECTOR - sectorOfs;
      var bytes := buffer[done..done + chunk];
      if sectorOfs == 0 && chunk == SECTOR {
        sectors := sectors[sectorIdx := bytes];
      } else {
        if !bounce {
          return false;
        }
        // The sector always holds data around the chunk, so starting from zeros never happens.
        assert sectorOfs > 0 || chunk < sectorLeft;
        var sector := if sectorOfs > 0 || chunk < sectorLeft then sectors[sectorIdx] else ZEROS;
        sectors := sectors[sectorIdx := Overwrite(sector, sectorOfs, bytes)];
      }
      ContentsWritten(old(sectors), sectors, x, at, bytes);
      ElsewhereWritten(old(sectors), sectors, x, at, bytes);
      ok := true;
    }

    /** inode_create's loop: a new file's data is all zeros, and no other sector changes. */
    method ZeroData(x: Extent)
      requires OnDisk(x, |sectors|)
      modifies this
      ensures OnDisk(x, |sectors|) && Contents(sectors, x) == seq(x.length, _ => 0)
      ensures |sectors| == |old(sectors)|
      ensures forall s :: 0 <= s < |sectors| && !(x.start <= s < x.start + Sectors(x.length)) ==> sectors[s] == old(sectors)[s]
    {
      hide Contents, Sectors;
      var i := 0;
      while i < Sectors(x.length)
        invariant i <= Sectors(x.length) && |sectors| == |old(sectors)|
        invariant forall s :: 0 <= s < |sectors| ==>
                    sectors[s] == if x.start <= s < x.start + i then ZEROS else old(sectors)[s]
      {
        sectors := sectors[x.start + i := ZEROS];
        i := i + 1;
      }
      forall pos | 0 <= pos < x.length ensures Contents(sectors, x)[pos] == 0 {
        PosInside(x, pos);
      }
    }

    /** inode_write_at. */
    method WriteAt(x: Extent, denyWriteCnt: nat, buffer: seq<byte>, size: int, offset: nat, bounce: bool)
      returns (bytesWritten: nat)
      requires OnDisk(x, |sectors|) && size <= |buffer|
      modifies this
      ensures OnDisk(x, |sectors|)
      ensures bytesWritten == if denyWriteCnt > 0 then 0 else Transferred(x.length, size, offset, bounce)
      ensures bytesWritten <= |buffer| && (bytesWritten > 0 ==> offset + bytesWritten <= x.length)
      ensures Contents(sectors, x) == Overwrite(old(Contents(sectors, x)), offset, buffer[..bytesWritten])
      ensures Elsewhere(old(sectors), sectors, x, offset, offset + bytesWritten)
    {
      hide *;
      ghost var disk, file := sectors, Contents(sectors, x);
      bytesWritten := 0;
      NothingWritten(disk, x, file, offset, buffer);
      if denyWriteCnt > 0 {
        return;
      }
      var left, at := size, offset;
      while left > 0
        invariant left == size - bytesWritten && at == offset + bytesWritten && OnDisk(x, |sectors|)
        invariant bytesWritten > 0 ==> at <= x.length && bytesWritten <= size
        invariant bytesWritten + Transferred(x.length, left, at, bounce) == Transferred(x.length, size, offset, bounce)
        invariant bytesWritten <= |buffer| && Contents(sectors, x) == Overwrite(file, offset, buffer[..bytesWritten])
        invariant Elsewhere(disk, sectors, x, offset, at)
      {
        ChunkStep(x.length, left, at, bounce);
        var chunk := Chunk(x.length, left, at);
        if chunk <= 0 {
          TransferredNone(x.length, left, at, bounce);
          break;
        }
        WriteStep(file, offset, buffer, bytesWritten, chunk);
        ghost var mid := sectors;
        var ok := WriteChunk(x, buffer, bytesWritten, at, chunk, bounce);
        if !ok {
          break;
        }
        ElsewhereTrans(disk, mid, sectors, x, offset, at, at + chunk);
        left, at, bytesWritten := left - chunk, at + chunk, bytesWritten + chunk;
      }
      if left <= 0 {
        TransferredNone(x.length, left, at, bounce);
      }
    }
  }

  lemma NothingWritten(disk: seq<Sector>, x: Extent, file: seq<byte>, offset: nat, buffer: seq<byte>)
    ensures Elsewhere(disk, disk, x, offset, offset) && Overwrite(file, offset, buffer[..0]) == file
  {
  }

  /** What is written is what is next read, and the count is the whole request when it lies in the file. */
  lemma ReadBack(file: seq<byte>, offset: nat, bytes: seq<byte>)
    requires bytes == [] || offset + |bytes| <= |file|
    ensures Slice(Overwrite(file, offset, bytes), offset, |bytes|) == bytes
    ensures Transferred(|file|, |bytes|, offset, true) == |bytes|
  {
  }

  lemma FilledNone(before: seq<byte>, file: seq<byte>, offset: nat)
    ensures Filled(before, file, offset, 0) == before
  {
  }

  lemma TransferredNone(length: nat, size: int, offset: nat, bounce: bool)
    requires size <= 0 || offset >= length
    ensures Transferred(length, size, offset, bounce) == 0
  {
  }

  /** memcpy. */
  method CopyIn(buffer: array<byte>, at: nat, bytes: seq<byte>)
    requires at + |bytes| <= buffer.Length
    modifies buffer
    ensures buffer[..] == Overwrite(old(buffer[..]), at, bytes)
  {
    var i := 0;
    while i < |bytes|
      invariant i <= |bytes|
      invariant forall k :: 0 <= k < buffer.Length ==>
                  buffer[k] == if at <= k < at + i then bytes[k - at] else old(buffer[k])
    {
      buffer[at + i] := bytes[i];
      i := i + 1;
    }
  }

  lemma ReadStep(before: seq<byte>, file: seq<byte>, offset: nat, n: nat, chunk: nat)
    requires chunk > 0 && n + chunk <= |before| && offset + n + chunk <= |file|
    ensures Overwrite(Filled(before, file, offset, n), n, Slice(file, offset + n, chunk))
         == Filled(before, file, offset, n + chunk)
  {
    hide Overwrite, Filled, Slice;
    var l := Overwrite(Filled(before, file, offset, n), n, Slice(file, offset + n, chunk));
    assert forall i :: 0 <= i < |l| ==> l[i] == Filled(before, file, offset, n + chunk)[i];
  }
}
