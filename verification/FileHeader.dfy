/** File headers (filesys/filehdr.cc): which sectors hold the bytes of a file. */
module FileHeaders {
  import opened Common
  import opened Words
  import opened Bytes
  import opened Bitmaps
  import opened SectorDisk

  const NUM_DIRECT := 30
  const MAX_FILE_SIZE := NUM_DIRECT * SECTOR_SIZE

  /** The least number of pieces of size `s` that hold `n`. */
  function DivRoundUp(n: nat, s: nat): (r: nat)
    requires s > 0
    ensures n <= s * r && (r > 0 ==> s * (r - 1) < n)
  {
    n / s + (if n % s > 0 then 1 else 0)
  }

  /** The value of a file header; in a sector it is an array of 32 C ints. */
  datatype Header = Header(numBytes: int32, numSectors: int32, dataSectors: seq<int32>)
  {
    /** What `Allocate` establishes: exactly as many blocks as it takes to hold the bytes, all on the disk. */
    predicate WellFormed() {
      && 0 <= numBytes <= MAX_FILE_SIZE
      && numBytes <= SECTOR_SIZE * numSectors < numBytes + SECTOR_SIZE
      && |dataSectors| == NUM_DIRECT
      && forall i :: 0 <= i < numSectors ==> 0 <= dataSectors[i] < NUM_SECTORS
    }

    function Blocks(): (b: seq<int>)
      ensures WellFormed() ==> |b| == numSectors && forall s :: s in b ==> 0 <= s < NUM_SECTORS
    {
      if 0 <= numSectors <= |dataSectors| then dataSectors[..numSectors] else []
    }

    predicate NoDuplicates() {
      Distinct(Blocks())
    }
  }

  function EncodeHeader(h: Header): Sector
    requires |h.dataSectors| == NUM_DIRECT
  {
    WordsBytes(AsWords([h.numBytes, h.numSectors] + h.dataSectors))
  }

  function DecodeHeader(s: Sector): Header {
    var v := AsInts(BytesWords(s, 32));
    Header(v[0], v[1], v[2..])
  }

  lemma HeaderRoundTrip(h: Header)
    requires |h.dataSectors| == NUM_DIRECT
    ensures DecodeHeader(EncodeHeader(h)) == h
  {
    var v := [h.numBytes, h.numSectors] + h.dataSectors;
    WordsRoundTrip(AsWords(v));
    IntsThroughWords(v);
  }

  /** Where a header sector has what: the length, the number of blocks, then the blocks, four bytes each. */
  lemma HeaderLayout(h: Header, i: nat)
    requires |h.dataSectors| == NUM_DIRECT && i < NUM_DIRECT
    ensures EncodeHeader(h)[0..4] == WordBytes(AsWord(h.numBytes)) && EncodeHeader(h)[4..8] == WordBytes(AsWord(h.numSectors))
    ensures EncodeHeader(h)[8 + 4 * i..12 + 4 * i] == WordBytes(AsWord(h.dataSectors[i]))
  {
    hide WordsBytes, WordBytes;
    var ws := AsWords([h.numBytes, h.numSectors] + h.dataSectors);
    WordsBytesAt(ws, 0);
    WordsBytesAt(ws, 1);
    WordsBytesAt(ws, i + 2);
    assert 4 * (i + 2) == 8 + 4 * i;
  }

  /** The bytes of a file: the first `numBytes` bytes of its blocks, in order. */
  ghost function Contents(d: Image, h: Header): (c: seq<byte>)
    requires h.WellFormed()
    ensures |c| == h.numBytes
  {
    seq(h.numBytes, p requires 0 <= p < h.numBytes => d[h.dataSectors[p / SECTOR_SIZE]][p % SECTOR_SIZE])
  }

  /** On any disk, the byte of the file at that offset is found in that sector of the file. */
  ghost predicate Stores(h: Header, offset: nat, sector: int)
    requires h.WellFormed() && offset < h.numBytes
  {
    && 0 <= sector < NUM_SECTORS && sector in h.Blocks()
    && forall d: Image :: d[sector][offset % SECTOR_SIZE] == Contents(d, h)[offset]
  }

  class FileHeader {
    var numBytes: int32
    var numSectors: int32
    const dataSectors: array<int32>

    ghost predicate Valid()
      reads this
    {
      dataSectors.Length == NUM_DIRECT
    }

    ghost function View(): (h: Header)
      reads this, dataSectors
      ensures Valid() ==> |h.dataSectors| == NUM_DIRECT
    {
      Header(numBytes, numSectors, dataSectors[..])
    }

    /** The object is uninitialised memory until it is allocated or fetched. */
    constructor ()
      ensures Valid() && fresh(dataSectors)
    {
      dataSectors := new int32[NUM_DIRECT];
    }

    /** Takes the lowest clear sectors for the data, or reports that there are too few. */
    method Allocate(freeMap: Bitmap, fileSize: int) returns (success: bool)
      requires Valid() && freeMap.Valid() && freeMap.numBits == NUM_SECTORS
      requires 0 <= fileSize <= MAX_FILE_SIZE
      requires dataSectors as object != freeMap.words
      modifies this, dataSectors, freeMap.words
      ensures success <==> fileSize <= SECTOR_SIZE * CountClear(old(freeMap.Bits()))
      ensures !success ==> freeMap.Bits() == old(freeMap.Bits())
      ensures success ==> View().WellFormed() && numBytes == fileSize
      ensures success ==> fileSize <= SECTOR_SIZE * |View().Blocks()| < fileSize + SECTOR_SIZE
      ensures success ==> Allocated(old(freeMap.Bits()), freeMap.Bits(), View().Blocks())
    {
      hide CountClear, Allocated;
      AllocatedNone(freeMap.Bits());
      numBytes := fileSize;
      numSectors := DivRoundUp(fileSize, SECTOR_SIZE);
      var clear := freeMap.NumClear();
      if clear < numSectors {
        return false;
      }
      var i := 0;
      while i < numSectors
        invariant 0 <= i <= numSectors <= NUM_DIRECT
        invariant numSectors == DivRoundUp(fileSize, SECTOR_SIZE) && numBytes == fileSize
        invariant CountClear(freeMap.Bits()) >= numSectors - i
        invariant Allocated(old(freeMap.Bits()), freeMap.Bits(), dataSectors[..i])
      {
        ghost var before, prefix := freeMap.Bits(), dataSectors[..i];
        var sector := freeMap.FindAndSet();
        assert sector >= 0;
        CountClearSet(before, sector);
        dataSectors[i] := sector;
        assert dataSectors[..i + 1] == prefix + [sector];
        AllocatedStep(old(freeMap.Bits()), before, prefix, sector);
        i := i + 1;
      }
      assert View().Blocks() == dataSectors[..numSectors];
      assert forall k :: 0 <= k < numSectors ==> dataSectors[k] in dataSectors[..numSectors];
      AllocatedWithin(old(freeMap.Bits()), freeMap.Bits(), dataSectors[..numSectors]);
      return true;
    }

    /** Gives back every data sector; each one had better be marked. */
    method Deallocate(freeMap: Bitmap)
      requires Valid() && freeMap.Valid() && freeMap.numBits == NUM_SECTORS
      requires View().WellFormed() && View().NoDuplicates()
      requires forall s :: s in View().Blocks() ==> freeMap.Bits()[s]
      requires dataSectors as object != freeMap.words
      modifies freeMap.words
      ensures forall s :: 0 <= s < NUM_SECTORS ==>
                freeMap.Bits()[s] == (old(freeMap.Bits())[s] && s !in View().Blocks())
    {
      ghost var blocks := View().Blocks();
      var i := 0;
      while i < numSectors
        invariant 0 <= i <= numSectors
        invariant dataSectors[..] == old(dataSectors[..])
        invariant forall s :: 0 <= s < NUM_SECTORS ==>
                    freeMap.Bits()[s] == (old(freeMap.Bits())[s] && s !in blocks[..i])
      {
        var sector := dataSectors[i];
        assert sector == blocks[i];
        var marked := freeMap.Test(sector);
        assert marked;
        freeMap.Clear(sector);
        assert blocks[..i + 1] == blocks[..i] + [sector];
        i := i + 1;
      }
      assert blocks[..numSectors] == blocks;
    }

    method FetchFrom(disk: SynchDisk, sector: int)
      requires Valid() && 0 <= sector < NUM_SECTORS
      modifies this, dataSectors
      ensures View() == DecodeHeader(disk.image[sector])
    {
      var buf := new byte[SECTOR_SIZE];
      disk.ReadSector(sector, buf, 0);
      assert buf[..] == disk.image[sector];
      var h := DecodeHeader(buf[..]);
      numBytes, numSectors := h.numBytes, h.numSectors;
      forall i | 0 <= i < NUM_DIRECT {
        dataSectors[i] := h.dataSectors[i];
      }
      assert dataSectors[..] == h.dataSectors;
    }

    method WriteBack(disk: SynchDisk, sector: int)
      requires Valid() && 0 <= sector < NUM_SECTORS
      modifies disk
      ensures disk.image == old(disk.image)[sector := EncodeHeader(View())]
      ensures DecodeHeader(disk.image[sector]) == View()
    {
      var bytes := EncodeHeader(Header(numBytes, numSectors, dataSectors[..]));
      var buf := new byte[SECTOR_SIZE](i requires 0 <= i < SECTOR_SIZE => bytes[i]);
      disk.WriteSector(sector, buf, 0);
      assert buf[0..SECTOR_SIZE] == bytes;
      HeaderRoundTrip(View());
    }

    /** The sector that stores the byte at the given offset: on any disk the byte of the file is found there. */
    method ByteToSector(offset: int) returns (sector: int)
      requires Valid() && 0 <= offset < MAX_FILE_SIZE
      ensures sector == View().dataSectors[offset / SECTOR_SIZE]
      ensures View().WellFormed() && offset < numBytes ==> Stores(View(), offset, sector)
    {
      assert View().WellFormed() && offset < numBytes ==>
          View().Blocks()[offset / SECTOR_SIZE] == View().dataSectors[offset / SECTOR_SIZE];
      sector := dataSectors[offset / SECTOR_SIZE];
    }
  }

  /** `taken` lists, in increasing order, exactly the sectors that went from clear to
      marked, and they are the lowest clear ones. */
  ghost predicate Allocated(before: seq<bool>, after: seq<bool>, taken: seq<int>) {
    && |before| == |after|
    && (forall i, j :: 0 <= i < j < |taken| ==> taken[i] < taken[j])
    && (forall s :: s in taken ==> 0 <= s < |before| && !before[s])
    && (forall s :: 0 <= s < |before| ==> after[s] == (before[s] || s in taken))
    && (taken != [] ==> forall s :: 0 <= s < taken[|taken| - 1] && s < |after| ==> after[s])
  }

  lemma AllocatedNone(bits: seq<bool>)
    ensures Allocated(bits, bits, [])
  {
  }

  lemma AllocatedWithin(before: seq<bool>, after: seq<bool>, taken: seq<int>)
    requires Allocated(before, after, taken)
    ensures forall s :: s in taken ==> 0 <= s < |before|
  {
  }

  lemma AllocatedStep(before: seq<bool>, mid: seq<bool>, taken: seq<int>, sector: int)
    requires Allocated(before, mid, taken)
    requires 0 <= sector < |mid| && !mid[sector] && forall s :: 0 <= s < sector ==> mid[s]
    ensures Allocated(before, mid[sector := true], taken + [sector])
  {
    if taken != [] {
      var last := taken[|taken| - 1];
      assert last in taken;
      assert last < sector;
    }
  }

  lemma AllocatedButLast(before: seq<bool>, after: seq<bool>, taken: seq<int>)
    requires Allocated(before, after, taken) && taken != []
    ensures var n := |taken| - 1;
            var last := taken[n];
            && 0 <= last < |after| && after[last] && Allocated(before, after[last := false], taken[..n])
  {
    var n := |taken| - 1;
    var last := taken[n];
    assert last in taken && last !in taken[..n];
    assert forall s :: s in taken <==> s in taken[..n] || s == last;
    assert taken[..n] != [] ==> taken[..n][n - 1] < last;
  }

  /** Allocating `n` sectors uses up `n` clear ones. */
  lemma {:induction false} AllocatedCount(before: seq<bool>, after: seq<bool>, taken: seq<int>)
    requires Allocated(before, after, taken)
    ensures CountClear(after) == CountClear(before) - |taken|
    decreases |taken|
  {
    if taken == [] {
      assert after == before;
    } else {
      AllocatedButLast(before, after, taken);
      hide Allocated;
      var n := |taken| - 1;
      var mid := after[taken[n] := false];
      AllocatedCount(before, mid, taken[..n]);
      CountClearSet(mid, taken[n]);
      assert mid[taken[n] := true] == after;
    }
  }
}
