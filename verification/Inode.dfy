/** filesys/inode.c: byte-addressed reads and writes over a device that
    transfers whole sectors. */
module Inode {
  import opened Strings

  const SECTOR := 512

  /** struct inode_disk: a file is length bytes in consecutive sectors. */
  datatype Extent = Extent(start: nat, length: nat)

  /** bytes_to_sectors. */
  function Sectors(e: Extent): (r: nat)
    ensures e.length <= r * SECTOR < e.length + SECTOR
  {
    (e.length + SECTOR - 1) / SECTOR
  }

  predicate OnDevice(bytes: seq<Byte>, e: Extent) {
    |bytes| % SECTOR == 0 && (e.start + Sectors(e)) * SECTOR <= |bytes|
  }

  /** The n bytes of s from i on. */
  function Sub(s: seq<Byte>, i: nat, n: nat): (r: seq<Byte>)
    requires i + n <= |s|
    ensures |r| == n
    ensures forall k :: 0 <= k < n ==> r[k] == s[i + k]
  {
    s[i..i + n]
  }

  /** s with the bytes from i on replaced by t. */
  function Splice(s: seq<Byte>, i: nat, t: seq<Byte>): (r: seq<Byte>)
    requires i + |t| <= |s|
    ensures |r| == |s|
    ensures forall k :: 0 <= k < |s| ==> r[k] == if i <= k < i + |t| then t[k - i] else s[k]
  {
    s[..i] + t + s[i + |t|..]
  }

  function Base(e: Extent): (r: nat) { e.start * SECTOR }

  /** The bytes of the file. */
  function Content(bytes: seq<Byte>, e: Extent): (r: seq<Byte>)
    requires OnDevice(bytes, e)
    ensures |r| == e.length
  {
    Sub(bytes, Base(e), e.length)
  }

  /** How many bytes a request moves: what lies inside the file; and without
      memory for a bounce buffer, only leading whole sectors. */
  function Moved(length: nat, size: int, offset: nat, memory: bool): (n: nat)
    ensures n > 0 ==> n <= size && offset + n <= length
  {
    var left := length - offset;
    var n := if size < left then size else left;
    if n <= 0 then 0
    else if memory then n
    else if offset % SECTOR != 0 then 0
    else n / SECTOR * SECTOR
  }

  /** Byte k of a request is moved exactly when it lies in the request and in the
      file; without memory for a bounce buffer, exactly when the request starts at
      a sector and the whole sector of the byte lies in both. */
  lemma MovedExactly(length: nat, size: int, offset: nat, memory: bool, k: nat)
    ensures k < Moved(length, size, offset, memory) <==>
      if memory then k < size && offset + k < length
      else offset % 512 == 0 && (k / 512 + 1) * 512 <= size && offset + (k / 512 + 1) * 512 <= length
  {
  }

  /** Byte k of a file is byte k % 512 of the sector k / 512 behind its start. */
  lemma ContentAt(bytes: seq<Byte>, e: Extent, k: nat)
    requires OnDevice(bytes, e) && k < e.length
    ensures (e.start + k / 512) * 512 + k % 512 < |bytes|
    ensures Content(bytes, e)[k] == bytes[(e.start + k / 512) * 512 + k % 512]
  {
    assert (e.start + k / 512) * 512 + k % 512 == e.start * 512 + k;
  }

  /** The effect of reading n bytes at offset into a buffer. */
  ghost predicate Got(bytes: seq<Byte>, e: Extent, was: seq<Byte>, buffer: seq<Byte>, offset: nat, n: nat)
    requires OnDevice(bytes, e)
  {
    && n <= |was|
    && if n == 0 then buffer == was
       else offset + n <= e.length && buffer == Splice(was, 0, Sub(bytes, Base(e) + offset, n))
  }

  /** The effect of writing the first n bytes of data on the whole device. */
  ghost predicate Put(was: seq<Byte>, e: Extent, bytes: seq<Byte>, data: seq<Byte>, offset: nat, n: nat)
    requires OnDevice(was, e)
  {
    && n <= |data|
    && if n == 0 then bytes == was
       else offset + n <= e.length && bytes == Splice(was, Base(e) + offset, Sub(data, 0, n))
  }

  // ------------------------------------------------------------ properties

  /** A read delivers the file's bytes, in the file's order. */
  lemma ReadIsContent(bytes: seq<Byte>, e: Extent, was: seq<Byte>, buffer: seq<Byte>, offset: nat, n: nat)
    requires OnDevice(bytes, e) && Got(bytes, e, was, buffer, offset, n)
    ensures |buffer| == |was| && forall k :: 0 <= k < |was| ==>
      buffer[k] == if k < n && offset + n <= e.length then Content(bytes, e)[offset + k] else was[k]
  {
  }

  /** A write changes the file like an array. */
  lemma WriteIsSplice(was: seq<Byte>, e: Extent, bytes: seq<Byte>, data: seq<Byte>, offset: nat, n: nat)
    requires OnDevice(was, e) && Put(was, e, bytes, data, offset, n) && n > 0
    ensures OnDevice(bytes, e) && Content(bytes, e) == Splice(Content(was, e), offset, Sub(data, 0, n))
  {
  }

  /** It leaves every file in other sectors alone. */
  lemma WriteElsewhere(was: seq<Byte>, e: Extent, bytes: seq<Byte>, data: seq<Byte>, offset: nat, n: nat, other: Extent)
    requires OnDevice(was, e) && OnDevice(was, other) && Put(was, e, bytes, data, offset, n)
    requires e.start + Sectors(e) <= other.start || other.start + Sectors(other) <= e.start
    ensures OnDevice(bytes, other) && Content(bytes, other) == Content(was, other)
  {
  }

  /** Every byte of the device outside the file is as it was. */
  ghost predicate OnlyFile(was: seq<Byte>, bytes: seq<Byte>, e: Extent) {
    |was| == |bytes| && forall k :: 0 <= k < |was| && !(Base(e) <= k < Base(e) + e.length) ==> bytes[k] == was[k]
  }

  lemma WriteStaysInside(was: seq<Byte>, e: Extent, bytes: seq<Byte>, data: seq<Byte>, offset: nat, n: nat)
    requires OnDevice(was, e) && Put(was, e, bytes, data, offset, n)
    ensures OnlyFile(was, bytes, e)
  {
  }

  /** Reading first bytes and then second bytes from where that ended delivers
      what reading both at once does. */
  lemma ReadInPieces(bytes: seq<Byte>, e: Extent, offset: nat, first: nat, second: nat, n1: nat, n2: nat, n: nat,
                     was1: seq<Byte>, b1: seq<Byte>, was2: seq<Byte>, b2: seq<Byte>, was: seq<Byte>, b: seq<Byte>)
    requires OnDevice(bytes, e)
    requires n1 == Moved(e.length, first, offset, true) && Got(bytes, e, was1, b1, offset, n1)
    requires n2 == Moved(e.length, second, offset + n1, true) && Got(bytes, e, was2, b2, offset + n1, n2)
    requires n == Moved(e.length, first + second, offset, true) && Got(bytes, e, was, b, offset, n)
    ensures n1 + n2 == n && n1 <= |b1| && n2 <= |b2| && n <= |b|
    ensures Sub(b, 0, n) == Sub(b1, 0, n1) + Sub(b2, 0, n2)
  {
    hide Moved, OnDevice, Got, Content, Sub, Piece;
    MovedInPieces(e.length, first, second, offset);
    GotPrefix(bytes, e, was1, b1, offset, n1);
    GotPrefix(bytes, e, was2, b2, offset + n1, n2);
    GotPrefix(bytes, e, was, b, offset, n);
    Joined(Content(bytes, e), offset, n1, n2);
  }

  lemma MovedInPieces(length: nat, first: nat, second: nat, offset: nat)
    ensures
      var n := Moved(length, first, offset, true);
      n + Moved(length, second, offset + n, true) == Moved(length, first + second, offset, true)
  {
  }

  /** The n bytes of c from i on, none if n is zero. */
  function Piece(c: seq<Byte>, i: nat, n: nat): (r: seq<Byte>) {
    if n == 0 || i + n > |c| then [] else Sub(c, i, n)
  }

  lemma GotPrefix(bytes: seq<Byte>, e: Extent, was: seq<Byte>, buffer: seq<Byte>, offset: nat, n: nat)
    requires OnDevice(bytes, e) && Got(bytes, e, was, buffer, offset, n)
    ensures n <= |buffer| && Sub(buffer, 0, n) == Piece(Content(bytes, e), offset, n)
    ensures n > 0 ==> offset + n <= e.length
  {
    ReadIsContent(bytes, e, was, buffer, offset, n);
  }

  lemma Joined(c: seq<Byte>, i: nat, n1: nat, n2: nat)
    requires n1 + n2 > 0 ==> i + n1 + n2 <= |c|
    ensures Piece(c, i, n1 + n2) == Piece(c, i, n1) + Piece(c, i + n1, n2)
  {
  }

  // ---------------------------------------------------------- splice algebra

  lemma SubSub(s: seq<Byte>, a: nat, n: nat, o: nat, c: nat)
    requires a + n <= |s| && o + c <= n
    ensures Sub(Sub(s, a, n), o, c) == Sub(s, a + o, c)
  {
  }

  lemma GotMore(was: seq<Byte>, src: seq<Byte>, i: nat, n: nat, c: nat)
    requires n + c <= |was| && i + n + c <= |src|
    ensures Splice(Splice(was, 0, Sub(src, i, n)), n, Sub(src, i + n, c)) == Splice(was, 0, Sub(src, i, n + c))
  {
  }

  lemma PutMore(was: seq<Byte>, at: nat, data: seq<Byte>, n: nat, c: nat)
    requires n + c <= |data| && at + n + c <= |was|
    ensures Splice(Splice(was, at, Sub(data, 0, n)), at + n, Sub(data, n, c)) == Splice(was, at, Sub(data, 0, n + c))
  {
  }

  lemma Nothing(was: seq<Byte>, at: nat, src: seq<Byte>, i: nat)
    requires at <= |was| && i <= |src|
    ensures Splice(was, at, Sub(src, i, 0)) == was
  {
  }

  /** Read a sector, change part of it, write it back. */
  lemma SpliceInSector(s: seq<Byte>, q: nat, o: nat, t: seq<Byte>)
    requires q + SECTOR <= |s| && o + |t| <= SECTOR
    ensures Splice(s, q, Splice(Sub(s, q, SECTOR), o, t)) == Splice(s, q + o, t)
  {
  }

  // ----------------------------------------------------------------- rounds

  /** Chunk size of one round: the request, the file or the sector ends first. */
  function Chunk(length: nat, size: int, offset: nat): (r: int) {
    var inodeLeft := length - offset;
    var sectorLeft := SECTOR - offset % SECTOR;
    var minLeft := if inodeLeft < sectorLeft then inodeLeft else sectorLeft;
    if size < minLeft then size else minLeft
  }

  /** The round goes on: there is something to copy, and memory if needed. */
  predicate Goes(length: nat, size: int, offset: nat, memory: bool) {
    var c := Chunk(length, size, offset);
    c > 0 && (memory || (offset % SECTOR == 0 && c == SECTOR))
  }

  lemma MovedStep(length: nat, size: int, offset: nat, memory: bool)
    requires Goes(length, size, offset, memory)
    ensures
      var c := Chunk(length, size, offset);
      0 < c <= size && offset + c <= length && offset % SECTOR + c <= SECTOR
      && Moved(length, size, offset, memory) == c + Moved(length, size - c, offset + c, memory)
  {
  }

  lemma MovedStops(length: nat, size: int, offset: nat, memory: bool)
    requires !Goes(length, size, offset, memory)
    ensures Moved(length, size, offset, memory) == 0
  {
  }

  /** The sector that holds c bytes of the file from pos on. */
  lemma SectorPart(bytes: seq<Byte>, e: Extent, pos: nat, c: nat)
    requires OnDevice(bytes, e) && 0 < c && pos + c <= e.length && pos % SECTOR + c <= SECTOR
    ensures
      var k, o := e.start + pos / SECTOR, pos % SECTOR;
      && k * SECTOR + SECTOR <= |bytes| && k * SECTOR + o == Base(e) + pos && Base(e) + pos + c <= |bytes|
      && Sub(Sub(bytes, k * SECTOR, SECTOR), o, c) == Sub(bytes, Base(e) + pos, c)
  {
    var k, o := e.start + pos / SECTOR, pos % SECTOR;
    assert k * SECTOR + o == Base(e) + pos;
    SubSub(bytes, k * SECTOR, SECTOR, o, c);
  }

  lemma GotStep(bytes: seq<Byte>, e: Extent, was: seq<Byte>, buffer: seq<Byte>, offset: nat, n: nat, c: nat)
    requires OnDevice(bytes, e) && Got(bytes, e, was, buffer, offset, n) && 0 < c
    requires n + c <= |was| && offset + n + c <= e.length
    ensures |buffer| == |was| && Base(e) + offset + n + c <= |bytes|
    ensures Got(bytes, e, was, Splice(buffer, n, Sub(bytes, Base(e) + offset + n, c)), offset, n + c)
  {
    var at := Base(e) + offset;
    assert at + n + c <= |bytes|;
    Nothing(was, 0, bytes, at);
    GotMore(was, bytes, at, n, c);
  }

  lemma PutStep(was: seq<Byte>, e: Extent, bytes: seq<Byte>, data: seq<Byte>, offset: nat, n: nat, c: nat)
    requires OnDevice(was, e) && Put(was, e, bytes, data, offset, n) && 0 < c
    requires n + c <= |data| && offset + n + c <= e.length
    ensures |bytes| == |was| && Base(e) + offset + n + c <= |was|
    ensures Put(was, e, Splice(bytes, Base(e) + offset + n, Sub(data, n, c)), data, offset, n + c)
  {
    var at := Base(e) + offset;
    assert at + n + c <= |was|;
    Nothing(was, at, data, 0);
    PutMore(was, at, data, n, c);
  }

  /** A chunk inside the file and inside one sector. */
  ghost predicate ChunkOk(bytes: seq<Byte>, e: Extent, pos: nat, c: int) {
    OnDevice(bytes, e) && 0 < c && pos + c <= e.length && pos % SECTOR + c <= SECTOR && Base(e) + pos + c <= |bytes|
  }

  /** After n bytes of a read, or of a write. */
  ghost predicate Reading(bytes: seq<Byte>, e: Extent, was: seq<Byte>, buffer: seq<Byte>, size: int, offset: nat, memory: bool, n: nat) {
    && OnDevice(bytes, e) && size <= |was| == |buffer| && Got(bytes, e, was, buffer, offset, n)
    && Moved(e.length, size, offset, memory) == n + Moved(e.length, size - n, offset + n, memory)
  }

  ghost predicate Writing(was: seq<Byte>, e: Extent, bytes: seq<Byte>, data: seq<Byte>, offset: nat, memory: bool, n: nat) {
    && OnDevice(was, e) && OnDevice(bytes, e) && |bytes| == |was| && Put(was, e, bytes, data, offset, n)
    && Moved(e.length, |data|, offset, memory) == n + Moved(e.length, |data| - n, offset + n, memory)
  }

  /** The chunk of a round fits the request, the file and its sector. */
  lemma RoundFits(bytes: seq<Byte>, e: Extent, size: int, pos: nat, memory: bool)
    requires OnDevice(bytes, e) && Goes(e.length, size, pos, memory)
    ensures
      var c := Chunk(e.length, size, pos);
      && 0 < c <= size && ChunkOk(bytes, e, pos, c)
      && Moved(e.length, size, pos, memory) == c + Moved(e.length, size - c, pos + c, memory)
  {
    MovedStep(e.length, size, pos, memory);
  }

  /** A round of a read takes one more chunk of the file. */
  lemma ReadRound(bytes: seq<Byte>, e: Extent, was: seq<Byte>, buffer: seq<Byte>, size: int, offset: nat, memory: bool, n: nat,
                  c: nat, after: seq<Byte>)
    requires Reading(bytes, e, was, buffer, size, offset, memory, n) && ChunkOk(bytes, e, offset + n, c) && c <= size - n
    requires Moved(e.length, size - n, offset + n, memory) == c + Moved(e.length, size - n - c, offset + n + c, memory)
    requires n + c <= |buffer| && after == Splice(buffer, n, Sub(bytes, Base(e) + offset + n, c))
    ensures Reading(bytes, e, was, after, size, offset, memory, n + c)
  {
    GotStep(bytes, e, was, buffer, offset, n, c);
    hide Moved, OnDevice, Base, Got, ChunkOk;
  }

  /** A round of a write stores one more chunk of the data. */
  lemma WriteRound(was: seq<Byte>, e: Extent, bytes: seq<Byte>, data: seq<Byte>, offset: nat, memory: bool, n: nat,
                   c: nat, after: seq<Byte>)
    requires Writing(was, e, bytes, data, offset, memory, n) && ChunkOk(bytes, e, offset + n, c) && c <= |data| - n
    requires Moved(e.length, |data| - n, offset + n, memory) == c + Moved(e.length, |data| - n - c, offset + n + c, memory)
    requires after == Splice(bytes, Base(e) + offset + n, Sub(data, n, c))
    ensures Writing(was, e, after, data, offset, memory, n + c)
  {
    PutStep(was, e, bytes, data, offset, n, c);
    SameDevice(bytes, after, e);
    hide Moved, OnDevice, Base, Put, ChunkOk;
  }

  lemma SameDevice(bytes: seq<Byte>, after: seq<Byte>, e: Extent)
    requires OnDevice(bytes, e) && |after| == |bytes|
    ensures OnDevice(after, e)
  {
  }

  lemma ReadingOk(bytes: seq<Byte>, e: Extent, was: seq<Byte>, buffer: seq<Byte>, size: int, offset: nat, memory: bool, n: nat)
    requires Reading(bytes, e, was, buffer, size, offset, memory, n)
    ensures OnDevice(bytes, e) && size <= |buffer|
  {
  }

  lemma WritingOk(was: seq<Byte>, e: Extent, bytes: seq<Byte>, data: seq<Byte>, offset: nat, memory: bool, n: nat)
    requires Writing(was, e, bytes, data, offset, memory, n)
    ensures OnDevice(bytes, e)
  {
  }

  lemma ReadStarts(bytes: seq<Byte>, e: Extent, was: seq<Byte>, size: int, offset: nat, memory: bool)
    requires OnDevice(bytes, e) && size <= |was|
    ensures Reading(bytes, e, was, was, size, offset, memory, 0)
  {
  }

  lemma WriteStarts(was: seq<Byte>, e: Extent, data: seq<Byte>, offset: nat, memory: bool)
    requires OnDevice(was, e)
    ensures Writing(was, e, was, data, offset, memory, 0) && Put(was, e, was, data, offset, 0)
  {
  }

  lemma ReadEnds(bytes: seq<Byte>, e: Extent, was: seq<Byte>, buffer: seq<Byte>, size: int, offset: nat, memory: bool, n: nat)
    requires Reading(bytes, e, was, buffer, size, offset, memory, n) && !Goes(e.length, size - n, offset + n, memory)
    ensures OnDevice(bytes, e) && Got(bytes, e, was, buffer, offset, n) && n == Moved(e.length, size, offset, memory)
  {
    MovedStops(e.length, size - n, offset + n, memory);
  }

  lemma WriteEnds(was: seq<Byte>, e: Extent, bytes: seq<Byte>, data: seq<Byte>, offset: nat, memory: bool, n: nat)
    requires Writing(was, e, bytes, data, offset, memory, n) && !Goes(e.length, |data| - n, offset + n, memory)
    ensures OnDevice(was, e) && Put(was, e, bytes, data, offset, n) && n == Moved(e.length, |data|, offset, memory)
  {
    MovedStops(e.length, |data| - n, offset + n, memory);
  }

  /** memcpy into the caller's buffer. */
  method CopyTo(buffer: array<Byte>, at: nat, s: seq<Byte>)
    requires at + |s| <= buffer.Length
    modifies buffer
    ensures buffer[..] == Splice(old(buffer[..]), at, s)
  {
    forall k | 0 <= k < |s| {
      buffer[at + k] := s[k];
    }
  }

  // ----------------------------------------------------------------- device

  class Device {
    var bytes: seq<Byte>

    method BlockRead(k: nat) returns (s: seq<Byte>)
      requires k * SECTOR + SECTOR <= |bytes|
      ensures s == Sub(bytes, k * SECTOR, SECTOR)
    {
      s := bytes[k * SECTOR..k * SECTOR + SECTOR];
    }

    method BlockWrite(k: nat, s: seq<Byte>)
      requires k * SECTOR + SECTOR <= |bytes| && |s| == SECTOR
      modifies this
      ensures bytes == Splice(old(bytes), k * SECTOR, s)
    {
      bytes := bytes[..k * SECTOR] + s + bytes[k * SECTOR + SECTOR..];
    }

    /** One round of inode_read_at. */
    method ReadChunk(e: Extent, buffer: array<Byte>, n: nat, pos: nat, chunk: nat)
      requires ChunkOk(bytes, e, pos, chunk) && n + chunk <= buffer.Length
      modifies buffer
      ensures Base(e) + pos + chunk <= |bytes| && buffer[..] == Splice(old(buffer[..]), n, Sub(bytes, Base(e) + pos, chunk))
    {
      SectorPart(bytes, e, pos, chunk);
      hide OnDevice, Splice, Base;
      var sectorOfs := pos % SECTOR;
      var s := BlockRead(e.start + pos / SECTOR);
      if sectorOfs == 0 && chunk == SECTOR {
        assert Sub(s, 0, SECTOR) == s;
        CopyTo(buffer, n, s);
      } else {
        CopyTo(buffer, n, s[sectorOfs..sectorOfs + chunk]);
      }
    }

    /** The body of the loop of inode_read_at. */
    method ReadOnce(e: Extent, buffer: array<Byte>, size: int, offset: nat, memory: bool, n: nat, ghost was: seq<Byte>)
      returns (chunk: nat)
      requires Reading(bytes, e, was, buffer[..], size, offset, memory, n) && Goes(e.length, size - n, offset + n, memory)
      modifies buffer
      ensures 0 < chunk <= size - n && Reading(bytes, e, was, buffer[..], size, offset, memory, n + chunk)
    {
      hide Moved, Chunk, OnDevice, Got, Reading, Goes, ChunkOk;
      ReadingOk(bytes, e, was, buffer[..], size, offset, memory, n);
      RoundFits(bytes, e, size - n, offset + n, memory);
      chunk := Chunk(e.length, size - n, offset + n);
      ghost var before := buffer[..];
      ReadChunk(e, buffer, n, offset + n, chunk);
      ReadRound(bytes, e, was, before, size, offset, memory, n, chunk, buffer[..]);
    }

    /** inode_read_at: fills a prefix of buffer with the file's bytes. */
    method ReadAt(e: Extent, buffer: array<Byte>, size: int, offset: nat, memory: bool) returns (n: nat)
      requires OnDevice(bytes, e) && size <= buffer.Length
      modifies buffer
      ensures n == Moved(e.length, size, offset, memory)
      ensures Got(bytes, e, old(buffer[..]), buffer[..], offset, n)
    {
      n := 0;
      ReadStarts(bytes, e, buffer[..], size, offset, memory);
      hide Moved, OnDevice, Got, Reading, Goes;
      while Goes(e.length, size - n, offset + n, memory)
        invariant Reading(bytes, e, old(buffer[..]), buffer[..], size, offset, memory, n)
        decreases size - n
      {
        var chunk := ReadOnce(e, buffer, size, offset, memory, n, old(buffer[..]));
        n := n + chunk;
      }
      ReadEnds(bytes, e, old(buffer[..]), buffer[..], size, offset, memory, n);
    }

    /** One round of inode_write_at. */
    method WriteChunk(e: Extent, t: seq<Byte>, pos: nat)
      requires ChunkOk(bytes, e, pos, |t|)
      modifies this
      ensures Base(e) + pos + |t| <= |old(bytes)| && bytes == Splice(old(bytes), Base(e) + pos, t)
    {
      SectorPart(bytes, e, pos, |t|);
      hide OnDevice, Splice, Base, Sub;
      var sectorOfs := pos % SECTOR;
      var sectorLeft := SECTOR - sectorOfs;
      var k := e.start + pos / SECTOR;
      if sectorOfs == 0 && |t| == SECTOR {
        BlockWrite(k, t);
      } else {
        var bounce: seq<Byte>;
        if sectorOfs > 0 || |t| < sectorLeft {
          bounce := BlockRead(k);
        } else {
          // the zero-filled bounce buffer is never needed
          assert false;
        }
        SpliceInSector(bytes, k * SECTOR, sectorOfs, t);
        BlockWrite(k, Splice(bounce, sectorOfs, t));
      }
    }

    /** The body of the loop of inode_write_at. */
    method WriteOnce(e: Extent, data: seq<Byte>, offset: nat, memory: bool, n: nat, ghost was: seq<Byte>) returns (chunk: nat)
      requires Writing(was, e, bytes, data, offset, memory, n) && Goes(e.length, |data| - n, offset + n, memory)
      modifies this
      ensures 0 < chunk <= |data| - n && Writing(was, e, bytes, data, offset, memory, n + chunk)
    {
      hide Moved, Chunk, OnDevice, Put, Writing, Goes, ChunkOk;
      WritingOk(was, e, bytes, data, offset, memory, n);
      RoundFits(bytes, e, |data| - n, offset + n, memory);
      chunk := Chunk(e.length, |data| - n, offset + n);
      ghost var before := bytes;
      WriteChunk(e, Sub(data, n, chunk), offset + n);
      WriteRound(was, e, before, data, offset, memory, n, chunk, bytes);
    }

    /** inode_write_at: replaces exactly the bytes of the request that lie in the
        file, and no other byte of the device. */
    method WriteAt(e: Extent, data: seq<Byte>, offset: nat, denyCount: nat, memory: bool) returns (n: nat)
      requires OnDevice(bytes, e)
      modifies this
      ensures n == if denyCount > 0 then 0 else Moved(e.length, |data|, offset, memory)
      ensures Put(old(bytes), e, bytes, data, offset, n)
    {
      n := 0;
      WriteStarts(bytes, e, data, offset, memory);
      if denyCount > 0 { return; }
      hide Moved, OnDevice, Put, Writing, Goes;
      while Goes(e.length, |data| - n, offset + n, memory)
        invariant Writing(old(bytes), e, bytes, data, offset, memory, n)
        decreases |data| - n
      {
        var chunk := WriteOnce(e, data, offset, memory, n, old(bytes));
        n := n + chunk;
      }
      WriteEnds(old(bytes), e, bytes, data, offset, memory, n);
    }
  }

  // ------------------------------------------------------------- positions

  /** struct file: reads and writes move the position behind what they did. */
  class OpenFile {
    const dev: Device
    const extent: Extent
    var pos: nat

    constructor (dev: Device, extent: Extent)
      ensures this.dev == dev && this.extent == extent && pos == 0
    {
      this.dev, this.extent, pos := dev, extent, 0;
    }

    /** file_read. */
    method Read(buffer: array<Byte>, size: int, memory: bool) returns (n: nat)
      requires OnDevice(dev.bytes, extent) && size <= buffer.Length
      modifies buffer, `pos
      ensures n == Moved(extent.length, size, old(pos), memory) && pos == old(pos) + n
      ensures Got(dev.bytes, extent, old(buffer[..]), buffer[..], old(pos), n)
    {
      n := dev.ReadAt(extent, buffer, size, pos, memory);
      pos := pos + n;
    }

    /** file_write. */
    method Write(data: seq<Byte>, denyCount: nat, memory: bool) returns (n: nat)
      requires OnDevice(dev.bytes, extent)
      modifies dev, `pos
      ensures n == if denyCount > 0 then 0 else Moved(extent.length, |data|, old(pos), memory)
      ensures pos == old(pos) + n && Put(old(dev.bytes), extent, dev.bytes, data, old(pos), n)
    {
      n := dev.WriteAt(extent, data, pos, denyCount, memory);
      pos := pos + n;
    }
  }

  /** What a write stored, a read from the same place returns. */
  lemma ReadBack(was: seq<Byte>, e: Extent, bytes: seq<Byte>, data: seq<Byte>, offset: nat, n: nat, old1: seq<Byte>, buffer: seq<Byte>)
    requires OnDevice(was, e) && OnDevice(bytes, e) && Put(was, e, bytes, data, offset, n)
    requires Got(bytes, e, old1, buffer, offset, n)
    ensures n <= |buffer| && Sub(buffer, 0, n) == Sub(data, 0, n)
  {
    ReadIsContent(bytes, e, old1, buffer, offset, n);
    if n > 0 {
      WriteIsSplice(was, e, bytes, data, offset, n);
    }
  }
}
