/** The bitmap kept in a file (filesys/pbitmap.cc): its words are copied out and in as raw bytes. */
module PersistentBitmaps {
  import opened Words
  import opened Bytes
  import opened Bitmaps
  import opened SectorDisk
  import opened FileHeaders
  import opened OpenFiles

  const FREE_MAP_FILE_SIZE := NUM_SECTORS / 8

  /** The bits that the bytes of a bitmap file stand for. */
  function BitsOfBytes(b: seq<byte>): (bits: seq<bool>)
    requires |b| == FREE_MAP_FILE_SIZE
    ensures |bits| == NUM_SECTORS
  {
    BitsOfWords(BytesWords(b, NUM_SECTORS / 32), NUM_SECTORS)
  }

  /** The low part of a sum has the low bits, the high part the others. */
  lemma {:induction false} BitOfSum(x: nat, y: nat, k: nat, j: nat)
    requires x < Pow2(k)
    ensures Bit(x + Pow2(k) * y, j) == if j < k then Bit(x, j) else Bit(y, j - k)
  {
    if k > 0 {
      HalfOfSum(x, Pow2(k - 1) * y);
      DoubleProduct(Pow2(k - 1), y);
      if j > 0 {
        BitOfSum(x / 2, y, k - 1, j - 1);
      }
    }
  }

  lemma HalfOfSum(x: nat, z: nat)
    ensures (x + 2 * z) / 2 == x / 2 + z && (x + 2 * z) % 2 == x % 2
  {
  }

  lemma BitOfByte(x: byte, rest: nat, j: nat)
    ensures Bit(x as int + 256 * rest, j) == if j < 8 then Bit(x as int, j) else Bit(rest, j - 8)
  {
    assert Pow2(8) == 256;
    BitOfSum(x as int, rest, 8, j);
  }

  lemma BitOfBytes(q: seq<byte>, j: nat)
    requires |q| == 4 && j < 32
    ensures Bit(BytesWord(q), j) == Bit(q[j / 8] as int, j % 8)
  {
    hide Bit;
    var r3: nat := q[3] as int;
    var r2: nat := q[2] as int + 256 * r3;
    var r1: nat := q[1] as int + 256 * r2;
    assert BytesWord(q) == q[0] as int + 256 * r1;
    BitOfByte(q[0], r1, j);
    if j >= 8 {
      BitOfByte(q[1], r2, j - 8);
    }
    if j >= 16 {
      BitOfByte(q[2], r3, j - 16);
    }
  }

  /** Where the bitmap's file has what: the bit of sector `s` is bit `s` modulo 8 of byte `s` / 8. */
  lemma BitmapLayout(b: seq<byte>, s: nat)
    requires |b| == FREE_MAP_FILE_SIZE && s < NUM_SECTORS
    ensures BitsOfBytes(b)[s] == Bit(b[s / 8] as int, s % 8)
  {
    hide Bit, BytesWord;
    var w, j := s / 32, s % 32;
    BitOfBytes(b[4 * w..4 * w + 4], j);
    assert s == 32 * w + j;
    assert s / 8 == 4 * w + j / 8 && s % 8 == j % 8;
  }

  method FetchFrom(freeMap: Bitmap, file: OpenFile)
    requires freeMap.Valid() && freeMap.numBits == NUM_SECTORS
    requires file.Valid() && file.hdr.numBytes == FREE_MAP_FILE_SIZE
    modifies freeMap.words
    ensures freeMap.Bits() == BitsOfBytes(Contents(file.disk.image, file.hdr.View()))
  {
    hide Contents, Header.NoDuplicates, Header.WellFormed;
    ghost var c := Contents(file.disk.image, file.hdr.View());
    var buf := new byte[4 * freeMap.words.Length];
    var n := file.ReadAt(buf, 0, buf.Length, 0);
    assert buf[..] == c;
    var ws := BytesWords(buf[..], freeMap.words.Length);
    forall i | 0 <= i < freeMap.words.Length {
      freeMap.words[i] := ws[i];
    }
    assert freeMap.words[..] == ws;
  }

  /** The constructor that initialises the bitmap from a file. */
  method FromFile(file: OpenFile) returns (freeMap: Bitmap)
    requires file.Valid() && file.hdr.numBytes == FREE_MAP_FILE_SIZE
    ensures freeMap.Valid() && freeMap.numBits == NUM_SECTORS && fresh(freeMap) && fresh(freeMap.words)
    ensures freeMap.Bits() == BitsOfBytes(Contents(file.disk.image, file.hdr.View()))
  {
    freeMap := new Bitmap(NUM_SECTORS);
    FetchFrom(freeMap, file);
  }

  method WriteBack(freeMap: Bitmap, file: OpenFile)
    requires freeMap.Valid() && freeMap.numBits == NUM_SECTORS
    requires file.Valid() && file.hdr.numBytes == FREE_MAP_FILE_SIZE
    modifies file.disk
    ensures BitsOfBytes(Contents(file.disk.image, file.hdr.View())) == freeMap.Bits()
    ensures SameExcept(old(file.disk.image), file.disk.image, set s | s in file.hdr.View().Blocks())
  {
    hide Contents, Header.NoDuplicates, Header.WellFormed;
    var bytes := WordsBytes(freeMap.words[..]);
    var buf := new byte[|bytes|](i requires 0 <= i < |bytes| => bytes[i]);
    assert buf[..] == bytes;
    var n := file.WriteAt(buf, buf.Length, 0);
    assert Contents(file.disk.image, file.hdr.View()) == bytes;
    WordsRoundTrip(freeMap.words[..]);
  }
}
