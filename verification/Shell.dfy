/** Two commands of the kernel's main program that use the file system (threads/main.cc): copying a file
    of the host into it, and printing one of its files. */
module Shell {
  import opened Bytes
  import opened SectorDisk
  import opened FileHeaders
  import opened OpenFiles
  import opened Directories
  import opened FileSystems

  const TRANSFER_SIZE := 128

  /** The loop of `Copy`: writes the data through an open file of the same length, a chunk at a time. */
  method CopyInto(openFile: OpenFile, data: seq<byte>)
    requires openFile.Valid() && openFile.hdr.numBytes == |data| && openFile.seekPosition == 0
    modifies openFile`seekPosition, openFile.disk
    ensures Contents(openFile.disk.image, openFile.hdr.View()) == data
    ensures SameExcept(old(openFile.disk.image), openFile.disk.image, set s | s in openFile.hdr.View().Blocks())
  {
    hide Contents, Header.NoDuplicates, Header.Blocks;
    var buffer := new byte[TRANSFER_SIZE];
    var done := 0;
    ghost var c := Contents(openFile.disk.image, openFile.hdr.View());
    while done < |data|
      invariant 0 <= done <= |data| && openFile.seekPosition == done
      invariant Contents(openFile.disk.image, openFile.hdr.View()) == data[..done] + c[done..]
      invariant SameExcept(old(openFile.disk.image), openFile.disk.image, set s | s in openFile.hdr.View().Blocks())
    {
      var amountRead := if |data| - done < TRANSFER_SIZE then |data| - done else TRANSFER_SIZE;
      forall k | 0 <= k < amountRead {
        buffer[k] := data[done + k];
      }
      assert buffer[..amountRead] == data[done..done + amountRead];
      var n := openFile.Write(buffer, amountRead);
      Chunk(data, c, done, amountRead);
      done := done + amountRead;
    }
  }

  lemma Chunk(data: seq<byte>, c: seq<byte>, done: nat, n: nat)
    requires |c| == |data| && done + n <= |data|
    ensures Splice(data[..done] + c[done..], done, data[done..done + n]) == data[..done + n] + c[done + n..]
  {
  }

  lemma CreatedFile(d: Image, to: CString, size: int, d': Image)
    requires Inv(d) && Step(d, Op.Create(to, size, true), d')
    ensures Inv(d') && HasIndex(TableOf(d'), NameKey(to)) && HasFileOfSize(d', NameKey(to), size)
    ensures forall other :: other != NameKey(to) ==> SameFile(d, d', other)
  {
    hide Contents, DecodeHeader, Key, TableOf, Created, SameFile, HasFile, Owned, Bits, HasIndex;
    var s :| Created(d, NameKey(to), size, s, d');
    CreateKeepsFiles(d, NameKey(to), size, s, d');
    var c :| HasFile(d', NameKey(to), c) && |c| == size;
    FileHasIndex(d', NameKey(to), c);
  }

  ghost predicate HasFileOfSize(d: Image, key: CString, size: int)
    requires HeadersValid(d)
  {
    exists c :: HasFile(d, key, c) && |c| == size
  }

  lemma FileHasIndex(d: Image, key: CString, c: seq<byte>)
    requires HeadersValid(d) && HasFile(d, key, c)
    ensures HasIndex(TableOf(d), key)
  {
    hide Contents, DecodeHeader, Key, TableOf;
  }

  lemma OpenedSize(d: Image, key: CString, size: int, h: Header)
    requires Inv(d) && IsHeaderOf(d, key, h) && HasFileOfSize(d, key, size)
    ensures h.WellFormed() && h.numBytes == size
  {
    hide Contents, DecodeHeader, HasFile, IsHeaderOf, Inv, Header.WellFormed;
    InvHeaders(d);
    var c :| HasFile(d, key, c) && |c| == size;
    FileIsUnique(d, key, h, c);
  }

  /** The chunks together are one write of the whole data. */
  lemma Copied(d: Image, d1: Image, to: CString, h: Header, data: seq<byte>, d2: Image)
    requires HeadersValid(d) && Inv(d1) && IsHeaderOf(d1, NameKey(to), h) && h.WellFormed() && h.numBytes == |data|
    requires forall other :: other != NameKey(to) ==> SameFile(d, d1, other)
    requires SameExcept(d1, d2, set s | s in h.Blocks()) && Contents(d2, h) == data
    ensures Inv(d2) && MapHdr(d2) == MapHdr(d1) && DirHdr(d2) == DirHdr(d1) && HasFile(d2, NameKey(to), data)
    ensures forall other :: other != NameKey(to) ==> SameFile(d, d2, other)
  {
    hide Contents, DecodeHeader, HasFile, IsHeaderOf, Inv, Header.WellFormed, Header.Blocks, SameExcept, Step;
    assert HeadersValid(d1) by {
      InvHeaders(d1);
    }
    assert Splice(Contents(d1, h), 0, data) == data;
    WriteIsStep(d1, to, h, 0, data, d2);
    InvHeaders(d2);
    forall other | other != NameKey(to)
      ensures SameFile(d, d2, other)
    {
      assert SameFile(d, d1, other) && SameFile(d1, d2, other);
    }
  }

  lemma SameContents(d: Image, key: CString, c: seq<byte>, c': seq<byte>)
    requires Inv(d) && HasFile(d, key, c) && HasFile(d, key, c')
    ensures c == c'
  {
    hide Key, TableOf, Contents, DecodeHeader, Header.WellFormed;
    var i :| IsIndexOf(TableOf(d), key, i) && i >= 0 && EntryValid(d, TableOf(d)[i])
      && c == Contents(d, HeaderAt(d, TableOf(d)[i].sector));
    UniqueIndex(TableOf(d), key, i);
  }

  /** `Copy`: a new file with exactly the data. It fails exactly if `Create` does, and touches no other file. */
  method Copy(fileSystem: FileSystem, data: seq<byte>, to: CString) returns (success: bool)
    requires fileSystem.Valid() && |data| <= MAX_FILE_SIZE
    modifies fileSystem.disk
    ensures fileSystem.Valid()
    ensures success == !CannotCreate(old(fileSystem.disk.image), NameKey(to), |data|)
    ensures !success ==> fileSystem.disk.image == old(fileSystem.disk.image)
    ensures success ==>
              && HasFile(fileSystem.disk.image, NameKey(to), data)
              && forall other :: other != NameKey(to) ==> SameFile(old(fileSystem.disk.image), fileSystem.disk.image, other)
  {
    hide Contents, DecodeHeader, Header.Blocks, Header.NoDuplicates, IsHeaderOf, HasFile, SameFile, Inv, SameExcept,
      CannotCreate, Created;
    ghost var d := fileSystem.disk.image;
    success := fileSystem.Create(to, |data|);
    if !success {
      return;
    }
    ghost var d1 := fileSystem.disk.image;
    CreatedFile(d, to, |data|, d1);
    var openFile := fileSystem.Open(to);
    OpenedSize(d1, NameKey(to), |data|, openFile.hdr.View());
    CopyInto(openFile, data);
    Copied(d, d1, to, openFile.hdr.View(), data, fileSystem.disk.image);
  }

  /** The loop of `Print`: reads a chunk at a time until there is nothing left. */
  method PrintFrom(openFile: OpenFile) returns (output: seq<byte>)
    requires openFile.Valid() && openFile.seekPosition == 0
    modifies openFile`seekPosition
    ensures output == Contents(openFile.disk.image, openFile.hdr.View())
  {
    hide Contents, Header.NoDuplicates, Header.Blocks;
    ghost var c := Contents(openFile.disk.image, openFile.hdr.View());
    var buffer := new byte[TRANSFER_SIZE];
    output := [];
    var amountRead := openFile.Read(buffer, TRANSFER_SIZE);
    while amountRead > 0
      invariant |output| <= |c| && output == c[..|output|]
      invariant amountRead == Clip(|c|, TRANSFER_SIZE, |output|) && openFile.seekPosition == |output| + amountRead
      invariant amountRead > 0 ==> buffer[..amountRead] == c[|output|..|output| + amountRead]
      decreases |c| - |output|
    {
      ghost var before := output;
      output := output + buffer[..amountRead];
      NextChunk(c, before, buffer[..amountRead], output);
      amountRead := openFile.Read(buffer, TRANSFER_SIZE);
    }
  }

  lemma NextChunk(c: seq<byte>, before: seq<byte>, chunk: seq<byte>, after: seq<byte>)
    requires |before| + |chunk| <= |c| && before == c[..|before|] && chunk == c[|before|..|before| + |chunk|]
    requires after == before + chunk
    ensures |after| == |before| + |chunk| && after == c[..|after|]
  {
  }

  /** `Print`: puts out the contents of the file, or reports that there is none. */
  method Print(fileSystem: FileSystem, name: CString) returns (found: bool, output: seq<byte>)
    requires fileSystem.Valid()
    ensures found == HasIndex(TableOf(fileSystem.disk.image), NameKey(name))
    ensures found ==> HasFile(fileSystem.disk.image, NameKey(name), output)
  {
    hide Contents, Header.NoDuplicates, Header.Blocks, HasIndex, HasFile, IsHeaderOf, Inv;
    output := [];
    var openFile := fileSystem.Open(name);
    found := openFile != null;
    if found {
      output := PrintFrom(openFile);
    }
  }

  /** Printing a file gives what was copied into it. */
  method CopyThenPrint(fileSystem: FileSystem, data: seq<byte>, name: CString) returns (success: bool, output: seq<byte>)
    requires fileSystem.Valid() && |data| <= MAX_FILE_SIZE
    modifies fileSystem.disk
    ensures fileSystem.Valid() && (success ==> output == data)
  {
    hide Contents, DecodeHeader, HasFile, Inv, CannotCreate, SameFile;
    success := Copy(fileSystem, data, name);
    var found;
    found, output := Print(fileSystem, name);
    if success {
      InvHeaders(fileSystem.disk.image);
      FileHasIndex(fileSystem.disk.image, NameKey(name), data);
      SameContents(fileSystem.disk.image, NameKey(name), data, output);
    }
  }
}
