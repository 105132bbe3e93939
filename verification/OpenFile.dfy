/** Open files (filesys/openfile.cc): byte-granular access over whole-sector disk I/O. */
module OpenFiles {
  import opened Bytes
  import opened SectorDisk
  import opened FileHeaders

  const MAX_INT := 0x7fff_ffff

  /** How many of the bytes of a request lie inside a file of length `len`. */
  function Clip(len: int, numBytes: int, position: int): (n: int)
    ensures position >= 0 ==> n == 0 || (0 < n <= numBytes && position + n <= len)
    ensures numBytes > 0 && position < len ==> n == numBytes || position + n == len
  {
    if numBytes <= 0 || position >= len then 0
    else if position + numBytes > len then len - position
    else numBytes
  }

  /** A file only depends on the sectors that hold its blocks. */
  lemma ContentsFrame(d: Image, d': Image, h: Header, changed: set<int>)
    requires h.WellFormed() && SameExcept(d, d', changed)
    requires forall s :: s in h.Blocks() ==> s !in changed
    ensures Contents(d', h) == Contents(d, h)
  {
    forall p | 0 <= p < h.numBytes
      ensures Contents(d', h)[p] == Contents(d, h)[p]
    {
      assert h.Blocks()[p / SECTOR_SIZE] == h.dataSectors[p / SECTOR_SIZE];
    }
  }

  /** The sectors that a request touches are the file's. */
  lemma RequestSectors(h: Header, position: int, n: int)
    requires h.WellFormed() && 0 <= position && 0 < n && position + n <= h.numBytes
    ensures var first, last := position / SECTOR_SIZE, (position + n - 1) / SECTOR_SIZE;
            && 0 <= first <= last < h.numSectors
            && first * SECTOR_SIZE <= position && position + n <= (last + 1) * SECTOR_SIZE
  {
  }

  class OpenFile {
    const disk: SynchDisk
    const hdr: FileHeader
    var seekPosition: int

    /** The cached header describes distinct blocks on the disk. */
    ghost predicate Valid()
      reads this, hdr, hdr.dataSectors
    {
      && hdr.Valid()
      && hdr.View().WellFormed()
      && hdr.View().NoDuplicates()
    }

    constructor (disk: SynchDisk, sector: int)
      requires 0 <= sector < NUM_SECTORS
      ensures fresh(hdr) && fresh(hdr.dataSectors) && hdr.Valid()
      ensures this.disk == disk && seekPosition == 0
      ensures hdr.View() == DecodeHeader(disk.image[sector])
    {
      this.disk := disk;
      hdr := new FileHeader();
      seekPosition := 0;
      new;
      hdr.FetchFrom(disk, sector);
    }

    method Seek(position: int)
      modifies this
      ensures seekPosition == position
    {
      seekPosition := position;
    }

    /** The reading loop: brings a range of the file's sectors into a fresh buffer. */
    method LoadSectors(firstSector: int, lastSector: int) returns (buf: array<byte>)
      requires Valid() && 0 <= firstSector <= lastSector < hdr.numSectors
      ensures fresh(buf) && buf.Length == (lastSector - firstSector + 1) * SECTOR_SIZE
      ensures Loaded(disk.image, hdr.View(), buf[..], firstSector, lastSector + 1)
    {
      hide Loaded, Splice, Header.NoDuplicates, Stores, Contents;
      buf := new byte[(lastSector - firstSector + 1) * SECTOR_SIZE];
      var i := firstSector;
      LoadNone(disk.image, hdr.View(), buf[..], firstSector);
      while i <= lastSector
        invariant firstSector <= i <= lastSector + 1
        invariant Loaded(disk.image, hdr.View(), buf[..], firstSector, i)
      {
        ghost var before := buf[..];
        var sector := hdr.ByteToSector(i * SECTOR_SIZE);
        disk.ReadSector(sector, buf, (i - firstSector) * SECTOR_SIZE);
        LoadStep(disk.image, hdr.View(), before, firstSector, i);
        i := i + 1;
      }
    }

    /** The writing loop: writes the buffer over a range of the file's sectors. */
    method FlushSectors(buf: array<byte>, firstSector: int, lastSector: int)
      requires Valid() && 0 <= firstSector <= lastSector < hdr.numSectors
      requires buf.Length == (lastSector - firstSector + 1) * SECTOR_SIZE
      modifies disk
      ensures Flushed(old(disk.image), disk.image, hdr.View(), buf[..], firstSector, lastSector + 1)
    {
      hide Flushed, Header.NoDuplicates, Header.Blocks, Stores, Contents, SameExcept;
      var i := firstSector;
      FlushNone(disk.image, hdr.View(), buf[..], firstSector);
      while i <= lastSector
        invariant firstSector <= i <= lastSector + 1
        invariant Flushed(old(disk.image), disk.image, hdr.View(), buf[..], firstSector, i)
      {
        ghost var before := disk.image;
        var sector := hdr.ByteToSector(i * SECTOR_SIZE);
        disk.WriteSector(sector, buf, (i - firstSector) * SECTOR_SIZE);
        assert (i - firstSector) * SECTOR_SIZE + SECTOR_SIZE == (i - firstSector + 1) * SECTOR_SIZE;
        assert disk.image == before[hdr.View().dataSectors[i]
                                    := buf[(i - firstSector) * SECTOR_SIZE..(i - firstSector + 1) * SECTOR_SIZE]];
        FlushStep(old(disk.image), before, hdr.View(), buf[..], firstSector, i);
        i := i + 1;
      }
    }

    /** The rest of `ReadAt`, for a request within the file. */
    method ReadSectors(into: array<byte>, at: nat, n: int, position: int)
      requires Valid() && 0 <= position && 0 < n && position + n <= hdr.numBytes && at + n <= into.Length
      modifies into
      ensures into[..] == Splice(old(into[..]), at, Contents(disk.image, hdr.View())[position..position + n])
    {
      var firstSector := position / SECTOR_SIZE;
      var lastSector := (position + n - 1) / SECTOR_SIZE;
      RequestSectors(hdr.View(), position, n);
      hide Loaded, Splice, Contents, Header.NoDuplicates, Header.WellFormed;

      // read in all the full and partial sectors
      var buf := LoadSectors(firstSector, lastSector);
      LoadedContents(disk.image, hdr.View(), buf[..], firstSector, lastSector, position, n);

      // copy the part that was asked for
      CopyBytes(buf, position - firstSector * SECTOR_SIZE, into, at, n);
    }

    /** Reads the part of the request that lies in the file, into `into` from index `at` on. */
    method ReadAt(into: array<byte>, at: nat, numBytes: int, position: int) returns (n: int)
      requires Valid() && 0 <= position && position + numBytes <= MAX_INT
      requires at + Clip(hdr.numBytes, numBytes, position) <= into.Length
      modifies into
      ensures n == Clip(hdr.numBytes, numBytes, position)
      ensures n > 0 ==>
                into[..] == Splice(old(into[..]), at, Contents(disk.image, hdr.View())[position..position + n])
      ensures n <= 0 ==> into[..] == old(into[..])
    {
      hide Splice, Contents, Header.NoDuplicates;
      var fileLength := hdr.numBytes;
      if numBytes <= 0 || position >= fileLength {
        return 0;
      }
      n := numBytes;
      if position + n > fileLength {
        n := fileLength - position;
      }
      ReadSectors(into, at, n, position);
    }

    /** The rest of `WriteAt`, for a request within the file. */
    method WriteSectors(source: array<byte>, n: int, position: int)
      requires Valid() && 0 <= position && 0 < n <= source.Length && position + n <= hdr.numBytes
      modifies disk
      ensures Contents(disk.image, hdr.View()) == Splice(old(Contents(disk.image, hdr.View())), position, source[..n])
      ensures SameExcept(old(disk.image), disk.image, set s | s in hdr.View().Blocks())
    {
      hide BufferHolds, Flushed, Contents, Header.NoDuplicates, Header.WellFormed, Header.Blocks, SameExcept;
      var firstSector := position / SECTOR_SIZE;
      var lastSector := (position + n - 1) / SECTOR_SIZE;
      RequestSectors(hdr.View(), position, n);
      var buf := PrepareBuffer(source, n, position, firstSector, lastSector);
      FlushSectors(buf, firstSector, lastSector);
      FlushedContents(old(disk.image), disk.image, hdr.View(), buf[..], firstSector, lastSector,
                      Splice(old(Contents(disk.image, hdr.View())), position, source[..n]));
    }

    /** Overwrites the part of the request that lies in the file with bytes of `source`. */
    method WriteAt(source: array<byte>, numBytes: int, position: int) returns (n: int)
      requires Valid() && 0 <= position && position + numBytes <= MAX_INT
      requires Clip(hdr.numBytes, numBytes, position) <= source.Length
      modifies disk
      ensures n == Clip(hdr.numBytes, numBytes, position)
      ensures n <= 0 ==> disk.image == old(disk.image)
      ensures n > 0 ==>
                Contents(disk.image, hdr.View()) == Splice(old(Contents(disk.image, hdr.View())), position, source[..n])
      ensures SameExcept(old(disk.image), disk.image, set s | s in hdr.View().Blocks())
    {
      hide Splice, Contents, Header.NoDuplicates;
      var fileLength := hdr.numBytes;
      if numBytes <= 0 || position >= fileLength {
        return 0;
      }
      n := numBytes;
      if position + n > fileLength {
        n := fileLength - position;
      }
      WriteSectors(source, n, position);
    }

    /** The buffer to write back: partially modified sectors are read in first. */
    method PrepareBuffer(source: array<byte>, n: int, position: int, firstSector: int, lastSector: int)
      returns (buf: array<byte>)
      requires Valid() && 0 <= position && 0 < n <= source.Length && position + n <= hdr.numBytes
      requires firstSector == position / SECTOR_SIZE && lastSector == (position + n - 1) / SECTOR_SIZE
      ensures fresh(buf) && buf.Length == (lastSector - firstSector + 1) * SECTOR_SIZE
      ensures BufferHolds(buf[..], firstSector, lastSector,
                          Splice(Contents(disk.image, hdr.View()), position, source[..n]))
    {
      hide Splice, BufferHolds, Contents, Header.NoDuplicates;
      buf := new byte[(lastSector - firstSector + 1) * SECTOR_SIZE];
      var firstAligned := position == firstSector * SECTOR_SIZE;
      var lastAligned := position + n == (lastSector + 1) * SECTOR_SIZE;
      ghost var c := Contents(disk.image, hdr.View());
      ghost var b0 := buf[..];
      if !firstAligned {
        var r := ReadAt(buf, 0, SECTOR_SIZE, firstSector * SECTOR_SIZE);
        assert buf[..] == ReadSectorInto(b0, firstSector, firstSector, c);
      }
      ghost var b1 := buf[..];
      if !lastAligned && (firstSector != lastSector || firstAligned) {
        var r := ReadAt(buf, (lastSector - firstSector) * SECTOR_SIZE, SECTOR_SIZE, lastSector * SECTOR_SIZE);
        assert buf[..] == ReadSectorInto(b1, firstSector, lastSector, c);
      }
      ghost var b2 := buf[..];
      EdgesRead(b0, b1, b2, firstSector, lastSector, c, position, n);
      ghost var src := source[..n];
      assert source[0..0 + n] == src;
      BufferReady(b2, firstSector, lastSector, c, position, src);

      // copy in the bytes to change
      CopyBytes(source, 0, buf, position - firstSector * SECTOR_SIZE, n);
    }

    method Read(into: array<byte>, numBytes: int) returns (n: int)
      requires Valid() && 0 <= seekPosition && seekPosition + numBytes <= MAX_INT
      requires Clip(hdr.numBytes, numBytes, seekPosition) <= into.Length
      modifies this`seekPosition, into
      ensures n == Clip(hdr.numBytes, numBytes, old(seekPosition)) && seekPosition == old(seekPosition) + n
      ensures n > 0 ==>
                into[..n] == Contents(disk.image, hdr.View())[old(seekPosition)..seekPosition]
      ensures into[n..] == old(into[..])[n..]
    {
      n := ReadAt(into, 0, numBytes, seekPosition);
      seekPosition := seekPosition + n;
    }

    method Write(source: array<byte>, numBytes: int) returns (n: int)
      requires Valid() && 0 <= seekPosition && seekPosition + numBytes <= MAX_INT
      requires Clip(hdr.numBytes, numBytes, seekPosition) <= source.Length
      modifies this`seekPosition, disk
      ensures n == Clip(hdr.numBytes, numBytes, old(seekPosition)) && seekPosition == old(seekPosition) + n
      ensures n <= 0 ==> disk.image == old(disk.image)
      ensures n > 0 ==>
                Contents(disk.image, hdr.View())
                == Splice(old(Contents(disk.image, hdr.View())), old(seekPosition), source[..n])
      ensures SameExcept(old(disk.image), disk.image, set s | s in hdr.View().Blocks())
    {
      hide Contents, Header.NoDuplicates, Splice;
      n := WriteAt(source, numBytes, seekPosition);
      seekPosition := seekPosition + n;
    }
  }

  /** `bcopy`. */
  method CopyBytes(source: array<byte>, start: nat, target: array<byte>, at: nat, n: nat)
    requires source != target && start + n <= source.Length && at + n <= target.Length
    modifies target
    ensures target[..] == Splice(old(target[..]), at, source[start..start + n])
  {
    forall k | 0 <= k < n {
      target[at + k] := source[start + k];
    }
  }

  /** The buffer agrees with the file `c` on the whole range of sectors it covers. */
  ghost predicate BufferHolds(buf: seq<byte>, firstSector: int, lastSector: int, c: seq<byte>) {
    && 0 <= firstSector <= lastSector
    && |buf| == (lastSector - firstSector + 1) * SECTOR_SIZE
    && forall p :: 0 <= p < |buf| && firstSector * SECTOR_SIZE + p < |c| ==> buf[p] == c[firstSector * SECTOR_SIZE + p]
  }

  /** What is left of and right of the request in the buffer's sectors is as in the file `c`. */
  ghost predicate EdgesLoaded(buf: seq<byte>, firstSector: int, lastSector: int, c: seq<byte>, position: int, n: int)
    requires 0 <= firstSector <= lastSector && |buf| == (lastSector - firstSector + 1) * SECTOR_SIZE
    requires firstSector * SECTOR_SIZE <= position && 0 < n && position + n <= (lastSector + 1) * SECTOR_SIZE
    requires position + n <= |c|
  {
    && (forall q :: firstSector * SECTOR_SIZE <= q < position ==> buf[q - firstSector * SECTOR_SIZE] == c[q])
    && (forall q :: position + n <= q < (lastSector + 1) * SECTOR_SIZE && q < |c| ==>
          buf[q - firstSector * SECTOR_SIZE] == c[q])
  }

  /** `b` after reading sector number `k` of the file `c` into its place in a buffer that starts at `firstSector`. */
  ghost function ReadSectorInto(b: seq<byte>, firstSector: int, k: int, c: seq<byte>): (r: seq<byte>)
    requires 0 <= firstSector <= k && (k + 1 - firstSector) * SECTOR_SIZE <= |b| && k * SECTOR_SIZE < |c|
    ensures |r| == |b|
  {
    Splice(b, (k - firstSector) * SECTOR_SIZE, c[k * SECTOR_SIZE..k * SECTOR_SIZE + Clip(|c|, SECTOR_SIZE, k * SECTOR_SIZE)])
  }

  lemma EdgesRead(b0: seq<byte>, b1: seq<byte>, b2: seq<byte>, firstSector: int, lastSector: int, c: seq<byte>,
                  position: int, n: int)
    requires 0 <= firstSector <= lastSector && |b0| == |b1| == |b2| == (lastSector - firstSector + 1) * SECTOR_SIZE
    requires firstSector == position / SECTOR_SIZE && lastSector == (position + n - 1) / SECTOR_SIZE
    requires 0 <= position && 0 < n && position + n <= |c|
    requires b1 == if position != firstSector * SECTOR_SIZE then ReadSectorInto(b0, firstSector, firstSector, c) else b0
    requires b2 == if position + n != (lastSector + 1) * SECTOR_SIZE
                      && (firstSector != lastSector || position == firstSector * SECTOR_SIZE)
                   then ReadSectorInto(b1, firstSector, lastSector, c) else b1
    ensures EdgesLoaded(b2, firstSector, lastSector, c, position, n)
  {
    hide Splice;
    forall q | firstSector * SECTOR_SIZE <= q < (lastSector + 1) * SECTOR_SIZE && q < |c|
               && !(position <= q < position + n)
      ensures b2[q - firstSector * SECTOR_SIZE] == c[q]
    {
      if position != firstSector * SECTOR_SIZE {
        ReadSectorIntoAt(b0, firstSector, firstSector, c, q);
      }
      if position + n != (lastSector + 1) * SECTOR_SIZE
         && (firstSector != lastSector || position == firstSector * SECTOR_SIZE) {
        ReadSectorIntoAt(b1, firstSector, lastSector, c, q);
      }
    }
  }

  lemma ReadSectorIntoAt(b: seq<byte>, firstSector: int, k: int, c: seq<byte>, q: int)
    requires 0 <= firstSector <= k && (k + 1 - firstSector) * SECTOR_SIZE <= |b| && k * SECTOR_SIZE < |c|
    requires firstSector * SECTOR_SIZE <= q < |c| && q - firstSector * SECTOR_SIZE < |b|
    ensures ReadSectorInto(b, firstSector, k, c)[q - firstSector * SECTOR_SIZE]
         == if q / SECTOR_SIZE == k then c[q] else b[q - firstSector * SECTOR_SIZE]
  {
  }

  /** Reading the partial first and last sectors and copying the new bytes in gives the new file. */
  lemma BufferReady(buf: seq<byte>, firstSector: int, lastSector: int, c: seq<byte>, position: int, src: seq<byte>)
    requires 0 <= firstSector <= lastSector && |buf| == (lastSector - firstSector + 1) * SECTOR_SIZE
    requires firstSector * SECTOR_SIZE <= position && position + |src| <= (lastSector + 1) * SECTOR_SIZE
    requires 0 < |src| && position + |src| <= |c|
    requires EdgesLoaded(buf, firstSector, lastSector, c, position, |src|)
    ensures BufferHolds(Splice(buf, position - firstSector * SECTOR_SIZE, src), firstSector, lastSector,
                        Splice(c, position, src))
  {
    var c' := Splice(c, position, src);
    var buf' := Splice(buf, position - firstSector * SECTOR_SIZE, src);
    forall p | 0 <= p < |buf| && firstSector * SECTOR_SIZE + p < |c|
      ensures buf'[p] == c'[firstSector * SECTOR_SIZE + p]
    {
      var q := firstSector * SECTOR_SIZE + p;
      assert buf[q - firstSector * SECTOR_SIZE] == buf[p];
    }
  }

  /** The sectors `firstSector..i` of the file are in the buffer. */
  ghost predicate Loaded(d: Image, h: Header, buf: seq<byte>, firstSector: int, i: int) {
    && h.WellFormed() && 0 <= firstSector <= i <= h.numSectors && (i - firstSector) * SECTOR_SIZE <= |buf|
    && forall k :: firstSector <= k < i ==>
         buf[(k - firstSector) * SECTOR_SIZE..(k - firstSector + 1) * SECTOR_SIZE] == d[h.dataSectors[k]]
  }

  lemma LoadNone(d: Image, h: Header, buf: seq<byte>, firstSector: int)
    requires h.WellFormed() && 0 <= firstSector <= h.numSectors
    ensures Loaded(d, h, buf, firstSector, firstSector)
  {
  }

  lemma LoadStep(d: Image, h: Header, buf: seq<byte>, firstSector: int, i: int)
    requires Loaded(d, h, buf, firstSector, i)
    requires i < h.numSectors && (i + 1 - firstSector) * SECTOR_SIZE <= |buf|
    ensures Loaded(d, h, Splice(buf, (i - firstSector) * SECTOR_SIZE, d[h.dataSectors[i]]), firstSector, i + 1)
  {
    var buf' := Splice(buf, (i - firstSector) * SECTOR_SIZE, d[h.dataSectors[i]]);
    forall k | firstSector <= k < i
      ensures buf'[(k - firstSector) * SECTOR_SIZE..(k - firstSector + 1) * SECTOR_SIZE] == d[h.dataSectors[k]]
    {
      assert (k - firstSector + 1) * SECTOR_SIZE <= (i - firstSector) * SECTOR_SIZE;
      assert buf'[(k - firstSector) * SECTOR_SIZE..(k - firstSector + 1) * SECTOR_SIZE]
          == buf[(k - firstSector) * SECTOR_SIZE..(k - firstSector + 1) * SECTOR_SIZE];
    }
  }

  lemma LoadedContents(d: Image, h: Header, buf: seq<byte>, firstSector: int, lastSector: int, position: int, n: int)
    requires Loaded(d, h, buf, firstSector, lastSector + 1) && |buf| == (lastSector - firstSector + 1) * SECTOR_SIZE
    requires firstSector * SECTOR_SIZE <= position && 0 < n && position + n <= (lastSector + 1) * SECTOR_SIZE
    requires position + n <= h.numBytes
    ensures var start := position - firstSector * SECTOR_SIZE;
            buf[start..start + n] == Contents(d, h)[position..position + n]
  {
    forall q | position <= q < position + n
      ensures buf[q - firstSector * SECTOR_SIZE] == Contents(d, h)[q]
    {
      var k := q / SECTOR_SIZE;
      assert buf[(k - firstSector) * SECTOR_SIZE..(k - firstSector + 1) * SECTOR_SIZE][q % SECTOR_SIZE]
          == d[h.dataSectors[k]][q % SECTOR_SIZE];
      assert (k - firstSector) * SECTOR_SIZE + q % SECTOR_SIZE == q - firstSector * SECTOR_SIZE;
    }
  }

  /** The sectors `firstSector..i` of the file have been overwritten from the buffer, and nothing else. */
  ghost predicate Flushed(d: Image, d': Image, h: Header, buf: seq<byte>, firstSector: int, i: int) {
    && h.WellFormed() && 0 <= firstSector <= i <= h.numSectors && (i - firstSector) * SECTOR_SIZE <= |buf|
    && (forall k :: firstSector <= k < i ==>
          d'[h.dataSectors[k]] == buf[(k - firstSector) * SECTOR_SIZE..(k - firstSector + 1) * SECTOR_SIZE])
    && SameExcept(d, d', set k | firstSector <= k < i :: h.dataSectors[k] as int)
  }

  lemma FlushNone(d: Image, h: Header, buf: seq<byte>, firstSector: int)
    requires h.WellFormed() && 0 <= firstSector <= h.numSectors
    ensures Flushed(d, d, h, buf, firstSector, firstSector)
  {
  }

  lemma FlushStep(d: Image, d': Image, h: Header, buf: seq<byte>, firstSector: int, i: int)
    requires Flushed(d, d', h, buf, firstSector, i) && h.NoDuplicates()
    requires i < h.numSectors && (i + 1 - firstSector) * SECTOR_SIZE <= |buf|
    ensures var bytes: Sector := buf[(i - firstSector) * SECTOR_SIZE..(i - firstSector + 1) * SECTOR_SIZE];
            Flushed(d, d'[h.dataSectors[i] := bytes], h, buf, firstSector, i + 1)
  {
    var b := h.Blocks();
    forall k | firstSector <= k < i
      ensures h.dataSectors[k] != h.dataSectors[i]
    {
      assert b[k] == h.dataSectors[k] && b[i] == h.dataSectors[i];
    }
    var changed := set k | firstSector <= k < i + 1 :: h.dataSectors[k] as int;
    assert h.dataSectors[i] in changed;
    forall k | firstSector <= k < i ensures h.dataSectors[k] as int in changed {}
  }

  lemma FlushedByte(d: Image, d': Image, h: Header, buf: seq<byte>, firstSector: int, lastSector: int, c: seq<byte>, p: int)
    requires Flushed(d, d', h, buf, firstSector, lastSector + 1) && h.NoDuplicates()
    requires BufferHolds(buf, firstSector, lastSector, c) && 0 <= p < |c| == h.numBytes
    requires !(firstSector <= p / SECTOR_SIZE <= lastSector) ==> Contents(d, h)[p] == c[p]
    ensures Contents(d', h)[p] == c[p]
  {
    var b := h.Blocks();
    var k := p / SECTOR_SIZE;
    assert forall j :: 0 <= j < h.numSectors ==> b[j] == h.dataSectors[j];
    if firstSector <= k <= lastSector {
      assert d'[h.dataSectors[k]][p % SECTOR_SIZE] == buf[(k - firstSector) * SECTOR_SIZE + p % SECTOR_SIZE];
      assert (k - firstSector) * SECTOR_SIZE + p % SECTOR_SIZE == p - firstSector * SECTOR_SIZE;
    } else {
      forall j | firstSector <= j < lastSector + 1
        ensures h.dataSectors[j] != h.dataSectors[k]
      {
        assert b[j] != b[k];
      }
    }
  }

  lemma FlushedContents(d: Image, d': Image, h: Header, buf: seq<byte>, firstSector: int, lastSector: int, c: seq<byte>)
    requires Flushed(d, d', h, buf, firstSector, lastSector + 1) && h.NoDuplicates()
    requires BufferHolds(buf, firstSector, lastSector, c) && |c| == h.numBytes
    requires forall p :: 0 <= p < |c| && !(firstSector <= p / SECTOR_SIZE <= lastSector) ==> Contents(d, h)[p] == c[p]
    ensures Contents(d', h) == c
    ensures SameExcept(d, d', set s | s in h.Blocks())
  {
    assert SameExcept(d, d', set s | s in h.Blocks()) by {
      FlushedElsewhere(d, d', h, buf, firstSector, lastSector);
    }
    hide BufferHolds, Flushed, SameExcept, Header.NoDuplicates, Header.Blocks;
    assert h.WellFormed() by {
      FlushedElsewhere(d, d', h, buf, firstSector, lastSector);
    }
    forall p | 0 <= p < |c|
      ensures Contents(d', h)[p] == c[p]
    {
      FlushedByte(d, d', h, buf, firstSector, lastSector, c, p);
    }
  }

  lemma FlushedElsewhere(d: Image, d': Image, h: Header, buf: seq<byte>, firstSector: int, lastSector: int)
    requires Flushed(d, d', h, buf, firstSector, lastSector + 1)
    ensures h.WellFormed() && SameExcept(d, d', set s | s in h.Blocks())
  {
    assert forall k :: 0 <= k < h.numSectors ==> h.Blocks()[k] == h.dataSectors[k];
  }
}
