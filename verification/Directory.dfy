/** The flat directory (filesys/directory.cc): a table of names and header sectors, kept in a file. */
module Directories {
  import opened Words
  import opened Bytes
  import opened SectorDisk
  import opened FileHeaders
  import opened OpenFiles

  const FILE_NAME_MAX_LEN := 9
  const NUM_DIR_ENTRIES := 10
  const ENTRY_SIZE := 20
  const DIRECTORY_FILE_SIZE := ENTRY_SIZE * NUM_DIR_ENTRIES

  /** A C string, without its terminating NUL. */
  type CString = s: seq<byte> | 0 !in s

  /** The name field of an entry: ten bytes. */
  type StoredName = s: seq<byte> | |s| == FILE_NAME_MAX_LEN + 1 witness seq(FILE_NAME_MAX_LEN + 1, _ => 0)

  datatype Entry = Entry(inUse: bool, sector: int32, name: StoredName)

  type Table = t: seq<Entry> | |t| == NUM_DIR_ENTRIES
    witness seq(NUM_DIR_ENTRIES, _ => Entry(false, 0, seq(FILE_NAME_MAX_LEN + 1, _ => 0)))

  /** What a C program reads at index `i` of a string. */
  function CharAt(s: CString, i: nat): byte {
    if i < |s| then s[i] else 0
  }

  /** `strncmp(stored, s, 9) == 0`, from index `i` on. */
  predicate StrncmpIsZero(stored: StoredName, s: CString, i: nat)
    requires i <= FILE_NAME_MAX_LEN
    decreases FILE_NAME_MAX_LEN - i
  {
    i == FILE_NAME_MAX_LEN
    || (stored[i] == CharAt(s, i) && (stored[i] == 0 || StrncmpIsZero(stored, s, i + 1)))
  }

  /** `strncpy(stored, s, 9)`: nine characters, padded with NULs; the tenth byte keeps its value. */
  function Strncpy(stored: StoredName, s: CString): StoredName {
    seq(FILE_NAME_MAX_LEN, i requires 0 <= i < FILE_NAME_MAX_LEN => CharAt(s, i)) + stored[FILE_NAME_MAX_LEN..]
  }

  /** The part of a name that counts: its first nine characters. */
  function NameKey(s: CString): (k: CString)
    ensures |k| <= FILE_NAME_MAX_LEN
  {
    if |s| <= FILE_NAME_MAX_LEN then s else s[..FILE_NAME_MAX_LEN]
  }

  /** The name kept in an entry: the bytes before the first NUL, at most nine, from index `i` on. */
  function StoredKey(stored: StoredName, i: nat): (k: CString)
    requires i <= FILE_NAME_MAX_LEN
    decreases FILE_NAME_MAX_LEN - i
  {
    if i == FILE_NAME_MAX_LEN || stored[i] == 0 then [] else [stored[i]] + StoredKey(stored, i + 1)
  }

  function Key(e: Entry): CString
  {
    StoredKey(e.name, 0)
  }

  /** `strncmp` finds exactly the entries whose key is the key of the name. */
  lemma {:induction false} StrncmpMeansSameKey(stored: StoredName, s: CString, i: nat)
    requires i <= FILE_NAME_MAX_LEN && i <= |s|
    ensures StrncmpIsZero(stored, s, i) <==> StoredKey(stored, i) == NameKey(s)[i..]
    decreases FILE_NAME_MAX_LEN - i
  {
    var k := NameKey(s);
    if i < FILE_NAME_MAX_LEN {
      if i < |s| {
        assert s[i] in s;
        StrncmpMeansSameKey(stored, s, i + 1);
        assert k[i..] == [s[i]] + k[i + 1..];
        assert stored[i] != 0 ==> StoredKey(stored, i)[1..] == StoredKey(stored, i + 1);
      }
    }
  }

  /** `strncpy` stores the key of the name. */
  lemma {:induction false} StrncpyStoresKey(stored: StoredName, s: CString, i: nat)
    requires i <= FILE_NAME_MAX_LEN && i <= |s|
    ensures StoredKey(Strncpy(stored, s), i) == NameKey(s)[i..]
    decreases FILE_NAME_MAX_LEN - i
  {
    var k := NameKey(s);
    if i < FILE_NAME_MAX_LEN && i < |s| {
      assert s[i] in s;
      StrncpyStoresKey(stored, s, i + 1);
      assert k[i..] == [s[i]] + k[i + 1..];
    }
  }

  /** In memory: a bool, padding, a C int, ten characters and padding again. */
  function EntryBytes(e: Entry): (b: seq<byte>)
    ensures |b| == ENTRY_SIZE
  {
    [if e.inUse then 1 else 0, 0, 0, 0] + WordBytes(AsWord(e.sector)) + e.name + [0, 0]
  }

  function BytesEntry(b: seq<byte>): (e: Entry)
    requires |b| == ENTRY_SIZE
  {
    Entry(b[0] != 0, AsInt(BytesWord(b[4..8])), b[8..18])
  }

  lemma EntryRoundTrip(e: Entry)
    ensures BytesEntry(EntryBytes(e)) == e
  {
    var b := EntryBytes(e);
    assert b[4..8] == WordBytes(AsWord(e.sector));
    WordRoundTrip(AsWord(e.sector));
    IntRoundTrip(e.sector);
  }

  function TableBytes(table: Table): (b: seq<byte>)
    ensures |b| == DIRECTORY_FILE_SIZE
  {
    seq(DIRECTORY_FILE_SIZE, p requires 0 <= p < DIRECTORY_FILE_SIZE =>
      EntryBytes(table[p / ENTRY_SIZE])[p % ENTRY_SIZE])
  }

  /** The table that the bytes of a directory file stand for. */
  function BytesTable(b: seq<byte>): Table
    requires |b| == DIRECTORY_FILE_SIZE
  {
    seq(NUM_DIR_ENTRIES, i requires 0 <= i < NUM_DIR_ENTRIES => BytesEntry(b[ENTRY_SIZE * i..ENTRY_SIZE * i + ENTRY_SIZE]))
  }

  lemma TableBytesAt(table: Table, i: nat)
    requires i < NUM_DIR_ENTRIES
    ensures TableBytes(table)[ENTRY_SIZE * i..ENTRY_SIZE * i + ENTRY_SIZE] == EntryBytes(table[i])
  {
    var b := TableBytes(table);
    forall k | 0 <= k < ENTRY_SIZE
      ensures b[ENTRY_SIZE * i + k] == EntryBytes(table[i])[k]
    {
      assert (ENTRY_SIZE * i + k) / ENTRY_SIZE == i && (ENTRY_SIZE * i + k) % ENTRY_SIZE == k;
    }
  }

  /** Where the directory's file has what, in the twenty bytes of each entry. */
  lemma TableLayout(table: Table, i: nat)
    requires i < NUM_DIR_ENTRIES
    ensures TableBytes(table)[20 * i] == if table[i].inUse then 1 else 0
    ensures TableBytes(table)[20 * i + 4..20 * i + 8] == WordBytes(AsWord(table[i].sector))
    ensures TableBytes(table)[20 * i + 8..20 * i + 18] == table[i].name
  {
    hide WordBytes, TableBytes;
    TableBytesAt(table, i);
    var b, e := TableBytes(table), EntryBytes(table[i]);
    assert b[20 * i] == e[0];
    assert b[20 * i + 4..20 * i + 8] == b[20 * i..20 * i + 20][4..8] == e[4..8];
    assert b[20 * i + 8..20 * i + 18] == b[20 * i..20 * i + 20][8..18] == e[8..18];
  }

  lemma TableRoundTrip(table: Table)
    ensures BytesTable(TableBytes(table)) == table
  {
    hide EntryBytes, BytesEntry, TableBytes;
    forall i | 0 <= i < NUM_DIR_ENTRIES
      ensures BytesTable(TableBytes(table))[i] == table[i]
    {
      TableBytesAt(table, i);
      EntryRoundTrip(table[i]);
    }
  }

  /** `i` is the first entry in use for the given key, or -1 when there is none. */
  ghost predicate IsIndexOf(table: seq<Entry>, key: CString, i: int) {
    && -1 <= i < |table|
    && (i == -1 ==> forall j :: 0 <= j < |table| ==> !(table[j].inUse && Key(table[j]) == key))
    && (i >= 0 ==> table[i].inUse && Key(table[i]) == key
                   && forall j :: 0 <= j < i ==> !(table[j].inUse && Key(table[j]) == key))
  }

  class Directory {
    const table: array<Entry>

    ghost predicate Valid()
      reads this
    {
      table.Length == NUM_DIR_ENTRIES
    }

    /** No entry is in use; names and sectors are whatever the memory held. */
    constructor ()
      ensures Valid() && fresh(table)
      ensures forall i :: 0 <= i < NUM_DIR_ENTRIES ==> !table[i].inUse
    {
      table := new Entry[NUM_DIR_ENTRIES];
      new;
      for i := 0 to NUM_DIR_ENTRIES
        invariant forall k :: 0 <= k < i ==> !table[k].inUse
      {
        table[i] := table[i].(inUse := false);
      }
    }

    method FetchFrom(file: OpenFile)
      requires Valid() && file.Valid() && file.hdr.numBytes == DIRECTORY_FILE_SIZE
      modifies table
      ensures Valid() && table[..] == BytesTable(Contents(file.disk.image, file.hdr.View()))
    {
      hide Contents, Header.NoDuplicates, Header.WellFormed;
      ghost var c := Contents(file.disk.image, file.hdr.View());
      var buf := new byte[DIRECTORY_FILE_SIZE];
      var n := file.ReadAt(buf, 0, DIRECTORY_FILE_SIZE, 0);
      assert buf[..] == c;
      var t := BytesTable(buf[..]);
      forall i | 0 <= i < NUM_DIR_ENTRIES {
        table[i] := t[i];
      }
      assert table[..] == t;
    }

    method WriteBack(file: OpenFile)
      requires Valid() && file.Valid() && file.hdr.numBytes == DIRECTORY_FILE_SIZE
      modifies file.disk
      ensures BytesTable(Contents(file.disk.image, file.hdr.View())) == table[..]
      ensures SameExcept(old(file.disk.image), file.disk.image, set s | s in file.hdr.View().Blocks())
    {
      hide Contents, Header.NoDuplicates, Header.WellFormed;
      var bytes := TableBytes(table[..]);
      var buf := new byte[|bytes|](i requires 0 <= i < |bytes| => bytes[i]);
      assert buf[..] == bytes;
      var n := file.WriteAt(buf, buf.Length, 0);
      assert Contents(file.disk.image, file.hdr.View()) == bytes;
      TableRoundTrip(table[..]);
    }

    method FindIndex(name: CString) returns (index: int)
      requires Valid()
      ensures IsIndexOf(table[..], NameKey(name), index)
    {
      hide StrncmpIsZero, StoredKey;
      var i := 0;
      while i < table.Length
        invariant 0 <= i <= table.Length
        invariant forall j :: 0 <= j < i ==> !(table[j].inUse && Key(table[j]) == NameKey(name))
      {
        StrncmpMeansSameKey(table[i].name, name, 0);
        if table[i].inUse && StrncmpIsZero(table[i].name, name, 0) {
          return i;
        }
        i := i + 1;
      }
      return -1;
    }

    method Find(name: CString) returns (sector: int)
      requires Valid()
      ensures exists i :: IsIndexOf(table[..], NameKey(name), i) && sector == if i == -1 then -1 else table[i].sector
    {
      var i := FindIndex(name);
      return if i != -1 then table[i].sector else -1;
    }

    /** Puts the name in the first free entry; fails when the name is present or no entry is free. */
    method Add(name: CString, newSector: int32) returns (success: bool)
      requires Valid()
      modifies table
      ensures Valid()
      ensures success <==> IsIndexOf(old(table[..]), NameKey(name), -1) && exists e :: e in old(table[..]) && !e.inUse
      ensures !success ==> table[..] == old(table[..])
      ensures success ==> Added(old(table[..]), table[..], NameKey(name), newSector)
    {
      hide Strncpy, StoredKey;
      var found := FindIndex(name);
      if found != -1 {
        return false;
      }
      var i := 0;
      while i < table.Length
        invariant 0 <= i <= table.Length
        invariant table[..] == old(table[..])
        invariant forall j :: 0 <= j < i ==> table[j].inUse
      {
        if !table[i].inUse {
          table[i] := Entry(true, newSector, Strncpy(table[i].name, name));
          StrncpyStoresKey(old(table[i]).name, name, 0);
          assert table[..] == old(table[..])[i := table[i]];
          assert IsAddedAt(old(table[..]), table[..], NameKey(name), newSector, i);
          return true;
        }
        i := i + 1;
      }
      return false;
    }

    method Remove(name: CString) returns (success: bool)
      requires Valid()
      modifies table
      ensures Valid()
      ensures exists i :: IsIndexOf(old(table[..]), NameKey(name), i) && success == (i != -1)
                          && table[..] == if i == -1 then old(table[..])
                                          else old(table[..])[i := old(table[i]).(inUse := false)]
    {
      var i := FindIndex(name);
      if i == -1 {
        return false;
      }
      table[i] := table[i].(inUse := false);
      assert table[..] == old(table[..])[i := old(table[i]).(inUse := false)];
      return true;
    }
  }

  /** The first free entry, and no other, now maps the key to the sector. */
  ghost predicate Added(before: seq<Entry>, after: seq<Entry>, key: CString, sector: int32) {
    exists i :: 0 <= i < |before| && IsAddedAt(before, after, key, sector, i)
  }

  ghost predicate IsAddedAt(before: seq<Entry>, after: seq<Entry>, key: CString, sector: int32, i: nat)
    requires i < |before|
  {
    && !before[i].inUse && (forall j :: 0 <= j < i ==> before[j].inUse)
    && |after| == |before| && after == before[i := after[i]]
    && after[i].inUse && after[i].sector == sector && Key(after[i]) == key
  }
}
