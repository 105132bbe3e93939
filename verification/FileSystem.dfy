/** The file system (filesys/filesys.cc): formatting, `Create`, `Open` and `Remove`.
    The bitmap of free sectors and the directory are files themselves. */
module FileSystems {
  import opened Words
  import opened Bytes
  import opened Bitmaps
  import opened SectorDisk
  import opened FileHeaders
  import opened OpenFiles
  import opened PersistentBitmaps
  import opened Directories

  const FREE_MAP_SECTOR := 0
  const DIRECTORY_SECTOR := 1

  // ---------- What a disk image says ----------

  function HeaderAt(d: Image, s: int): Header
    requires 0 <= s < NUM_SECTORS
  {
    DecodeHeader(d[s])
  }

  function MapHdr(d: Image): Header { HeaderAt(d, FREE_MAP_SECTOR) }

  function DirHdr(d: Image): Header { HeaderAt(d, DIRECTORY_SECTOR) }

  predicate HeadersValid(d: Image) {
    && MapHdr(d).WellFormed() && MapHdr(d).numBytes == FREE_MAP_FILE_SIZE
    && DirHdr(d).WellFormed() && DirHdr(d).numBytes == DIRECTORY_FILE_SIZE
  }

  ghost function Bits(d: Image): (bits: seq<bool>)
    requires HeadersValid(d)
    ensures |bits| == NUM_SECTORS
  {
    BitsOfBytes(Contents(d, MapHdr(d)))
  }

  ghost function TableOf(d: Image): Table
    requires HeadersValid(d)
  {
    BytesTable(Contents(d, DirHdr(d)))
  }

  /** The sectors of one directory entry: its header and its data. */
  function EntryOwned(d: Image, e: Entry): multiset<int> {
    if e.inUse && 0 <= e.sector < NUM_SECTORS
    then multiset{e.sector as int} + multiset(HeaderAt(d, e.sector).Blocks())
    else multiset{}
  }

  function EntriesOwned(d: Image, table: seq<Entry>): multiset<int> {
    if table == [] then multiset{}
    else EntriesOwned(d, table[..|table| - 1]) + EntryOwned(d, table[|table| - 1])
  }

  ghost function SystemOwned(d: Image): multiset<int> {
    multiset{FREE_MAP_SECTOR, DIRECTORY_SECTOR} + multiset(MapHdr(d).Blocks()) + multiset(DirHdr(d).Blocks())
  }

  /** Every sector the file system can reach, counted with its multiplicity. */
  ghost function Owned(d: Image): multiset<int>
    requires HeadersValid(d)
  {
    SystemOwned(d) + EntriesOwned(d, TableOf(d))
  }

  ghost function SystemBlocks(d: Image): set<int> {
    (set s | s in MapHdr(d).Blocks()) + (set s | s in DirHdr(d).Blocks())
  }

  ghost predicate EntryValid(d: Image, e: Entry) {
    e.inUse ==> 0 <= e.sector < NUM_SECTORS && HeaderAt(d, e.sector).WellFormed()
  }

  ghost predicate UniqueKeys(table: seq<Entry>) {
    forall i, j :: 0 <= i < j < |table| && table[i].inUse && table[j].inUse ==> Key(table[i]) != Key(table[j])
  }

  /** The ownership invariant: a bit is set exactly when its sector is reachable, and then
      it is reachable in exactly one way; no two files share a name. */
  ghost predicate Inv(d: Image) {
    && HeadersValid(d)
    && (forall s :: 0 <= s < NUM_SECTORS ==> Owned(d)[s] == if Bits(d)[s] then 1 else 0)
    && (forall i :: 0 <= i < NUM_DIR_ENTRIES ==> EntryValid(d, TableOf(d)[i]))
    && UniqueKeys(TableOf(d))
  }

  lemma InvHeaders(d: Image)
    requires Inv(d)
    ensures HeadersValid(d)
  {
  }

  // ---------- Consequences of single ownership ----------

  /** Replacing one entry exchanges what that entry owned. */
  lemma {:induction false} EntriesUpdate(d: Image, table: seq<Entry>, i: nat, e: Entry, x: int)
    requires i < |table|
    ensures EntriesOwned(d, table[i := e])[x] + EntryOwned(d, table[i])[x]
         == EntriesOwned(d, table)[x] + EntryOwned(d, e)[x]
  {
    hide EntryOwned;
    var n := |table| - 1;
    if i == n {
      assert table[i := e][..n] == table[..n];
    } else {
      assert table[i := e][..n] == table[..n][i := e] && table[i := e][n] == table[n];
      EntriesUpdate(d, table[..n], i, e, x);
    }
  }

  lemma {:induction false} EntriesFrame(d: Image, d': Image, table: seq<Entry>)
    requires forall i :: 0 <= i < |table| && table[i].inUse && 0 <= table[i].sector < NUM_SECTORS ==>
               d'[table[i].sector] == d[table[i].sector]
    ensures EntriesOwned(d', table) == EntriesOwned(d, table)
  {
    if table != [] {
      var n := |table| - 1;
      EntriesFrame(d, d', table[..n]);
      assert EntryOwned(d', table[n]) == EntryOwned(d, table[n]);
    }
  }

  lemma {:induction false} EntryWithin(d: Image, table: seq<Entry>, i: nat)
    requires i < |table|
    ensures EntryOwned(d, table[i]) <= EntriesOwned(d, table)
  {
    hide EntryOwned;
    var n := |table| - 1;
    if i < n {
      EntryWithin(d, table[..n], i);
    }
  }

  lemma {:induction false} TwoEntriesWithin(d: Image, table: seq<Entry>, i: nat, j: nat)
    requires i < j < |table|
    ensures EntryOwned(d, table[i]) + EntryOwned(d, table[j]) <= EntriesOwned(d, table)
  {
    hide EntryOwned;
    var n := |table| - 1;
    if j < n {
      TwoEntriesWithin(d, table[..n], i, j);
    } else {
      EntryWithin(d, table[..n], i);
      assert table[..n][i] == table[i];
    }
  }

  lemma CountedOnce(d: Image, s: int)
    requires Inv(d) && 0 <= s < NUM_SECTORS
    ensures SystemOwned(d)[s] + EntriesOwned(d, TableOf(d))[s] == if Bits(d)[s] then 1 else 0
  {
    assert Owned(d)[s] == if Bits(d)[s] then 1 else 0;
  }

  /** A sequence in which nothing is counted twice has no duplicates. */
  lemma NoDuplicatesIfCountedOnce(h: Header)
    requires forall s :: s in h.Blocks() ==> multiset(h.Blocks())[s] <= 1
    ensures h.NoDuplicates()
  {
    var b := h.Blocks();
    forall i, j | 0 <= i < j < |b|
      ensures b[i] != b[j]
    {
      assert b == b[..j] + [b[j]] + b[j + 1..];
      assert multiset(b) == multiset(b[..j]) + multiset{b[j]} + multiset(b[j + 1..]);
      assert b[i] == b[..j][i] && b[i] in multiset(b[..j]);
      assert b[j] in b;
    }
  }

  /** The bitmap's and the directory's sectors are marked, distinct, and not used by anyone else. */
  lemma SystemSeparate(d: Image)
    requires Inv(d)
    ensures MapHdr(d).NoDuplicates() && DirHdr(d).NoDuplicates()
    ensures Bits(d)[FREE_MAP_SECTOR] && Bits(d)[DIRECTORY_SECTOR]
    ensures forall s :: s in MapHdr(d).Blocks() || s in DirHdr(d).Blocks() ==>
              s != FREE_MAP_SECTOR && s != DIRECTORY_SECTOR && Bits(d)[s]
    ensures forall s :: s in MapHdr(d).Blocks() ==> s !in DirHdr(d).Blocks()
  {
    var m, r := MapHdr(d).Blocks(), DirHdr(d).Blocks();
    assert Owned(d)[FREE_MAP_SECTOR] >= 1 && Owned(d)[DIRECTORY_SECTOR] >= 1;
    forall s | s in m || s in r
      ensures s != FREE_MAP_SECTOR && s != DIRECTORY_SECTOR && Bits(d)[s] && (s in m ==> s !in r)
      ensures multiset(m)[s] <= 1 && multiset(r)[s] <= 1
    {
      assert Owned(d)[s] == multiset{FREE_MAP_SECTOR, DIRECTORY_SECTOR}[s] + multiset(m)[s] + multiset(r)[s]
                         + EntriesOwned(d, TableOf(d))[s];
      assert s in m ==> s in multiset(m);
      assert s in r ==> s in multiset(r);
    }
    NoDuplicatesIfCountedOnce(MapHdr(d));
    NoDuplicatesIfCountedOnce(DirHdr(d));
  }

  /** The sectors of a file: its header and its blocks. */
  ghost predicate InFile(d: Image, e: Entry, s: int)
    requires 0 <= e.sector < NUM_SECTORS
  {
    s == e.sector || s in HeaderAt(d, e.sector).Blocks()
  }

  /** A file's sectors are marked and distinct, and neither the system's nor another file's. */
  lemma FileSeparate(d: Image, i: nat)
    requires Inv(d) && i < NUM_DIR_ENTRIES && TableOf(d)[i].inUse
    ensures var e := TableOf(d)[i];
            && HeaderAt(d, e.sector).NoDuplicates()
            && e.sector !in HeaderAt(d, e.sector).Blocks()
            && (forall s :: InFile(d, e, s) ==>
                  && 0 <= s < NUM_SECTORS && Bits(d)[s]
                  && s != FREE_MAP_SECTOR && s != DIRECTORY_SECTOR
                  && s !in MapHdr(d).Blocks() && s !in DirHdr(d).Blocks())
  {
    var table := TableOf(d);
    var e := table[i];
    var h := HeaderAt(d, e.sector);
    assert EntryValid(d, e);
    EntryWithin(d, table, i);
    var sys, own := SystemOwned(d), EntryOwned(d, e);
    forall s | InFile(d, e, s)
      ensures 0 <= s < NUM_SECTORS && Bits(d)[s] && s !in sys && own[s] == 1
    {
      assert s in own;
      assert Owned(d)[s] == sys[s] + EntriesOwned(d, table)[s];
    }
    forall s | s in h.Blocks()
      ensures multiset(h.Blocks())[s] <= 1 && s != e.sector
    {
      assert InFile(d, e, s);
      assert own[s] == multiset{e.sector as int}[s] + multiset(h.Blocks())[s];
      assert s in multiset(h.Blocks());
    }
    NoDuplicatesIfCountedOnce(h);
    forall s | InFile(d, e, s)
      ensures s != FREE_MAP_SECTOR && s != DIRECTORY_SECTOR && s !in MapHdr(d).Blocks() && s !in DirHdr(d).Blocks()
    {
      assert s !in sys;
      assert s in MapHdr(d).Blocks() ==> s in multiset(MapHdr(d).Blocks());
      assert s in DirHdr(d).Blocks() ==> s in multiset(DirHdr(d).Blocks());
    }
  }

  lemma FileMarked(d: Image, j: nat, x: int)
    requires Inv(d) && j < NUM_DIR_ENTRIES && TableOf(d)[j].inUse && EntryValid(d, TableOf(d)[j])
    requires InFile(d, TableOf(d)[j], x)
    ensures 0 <= x < NUM_SECTORS && Bits(d)[x] && x !in SystemBlocks(d)
  {
    hide Bits, TableOf, DecodeHeader, Header.WellFormed, Header.Blocks, Owned, Key;
    FileSeparate(d, j);
  }

  lemma FilesDisjoint(d: Image, i: nat, j: nat, s: int)
    requires Inv(d) && i < NUM_DIR_ENTRIES && j < NUM_DIR_ENTRIES && i != j
    requires TableOf(d)[i].inUse && TableOf(d)[j].inUse
    requires EntryValid(d, TableOf(d)[i]) && EntryValid(d, TableOf(d)[j])
    requires InFile(d, TableOf(d)[i], s)
    ensures !InFile(d, TableOf(d)[j], s)
  {
    hide Bits, TableOf, DecodeHeader, Header.WellFormed, Header.Blocks, EntriesOwned;
    var table := TableOf(d);
    FileSeparate(d, i);
    CountedOnce(d, s);
    TwoEntriesWithin(d, table, if i < j then i else j, if i < j then j else i);
    var own, own' := EntryOwned(d, table[i]), EntryOwned(d, table[j]);
    assert s in own && (InFile(d, table[j], s) ==> s in own');
    assert own[s] + own'[s] <= EntriesOwned(d, table)[s];
  }

  // ---------- What each operation does to the image ----------

  ghost predicate HasIndex(table: Table, key: CString) {
    !IsIndexOf(table, key, -1)
  }

  /** Why `Create` fails: the name exists, or a sector, an entry or the data blocks are lacking. */
  ghost predicate CannotCreate(d: Image, key: CString, size: int)
    requires HeadersValid(d) && size >= 0
  {
    || HasIndex(TableOf(d), key)
    || (forall e :: e in TableOf(d) ==> e.inUse)
    || SECTOR_SIZE * (CountClear(Bits(d)) - 1) < size
  }

  ghost predicate Created(d: Image, key: CString, size: int, s: int32, d': Image)
    requires HeadersValid(d)
  {
    && 0 <= s < NUM_SECTORS && !Bits(d)[s] && (forall i :: 0 <= i < s ==> Bits(d)[i])
    && HeadersValid(d') && MapHdr(d') == MapHdr(d) && DirHdr(d') == DirHdr(d)
    && HeaderAt(d', s).WellFormed() && HeaderAt(d', s).numBytes == size
    && size <= SECTOR_SIZE * |HeaderAt(d', s).Blocks()| < size + SECTOR_SIZE
    && Added(TableOf(d), TableOf(d'), key, s)
    && Allocated(Bits(d)[s := true], Bits(d'), HeaderAt(d', s).Blocks())
    && SameExcept(d, d', {s as int} + SystemBlocks(d))
  }

  ghost predicate Removed(d: Image, i: int, d': Image)
    requires HeadersValid(d)
  {
    && 0 <= i < NUM_DIR_ENTRIES && TableOf(d)[i].inUse && EntryValid(d, TableOf(d)[i])
    && HeadersValid(d') && MapHdr(d') == MapHdr(d) && DirHdr(d') == DirHdr(d)
    && TableOf(d') == TableOf(d)[i := TableOf(d)[i].(inUse := false)]
    && (forall s :: 0 <= s < NUM_SECTORS ==> Bits(d')[s] == (Bits(d)[s] && !InFile(d, TableOf(d)[i], s)))
    && SameExcept(d, d', SystemBlocks(d))
  }

  /** Entry `i`'s file has been written through an open file: only its blocks changed. */
  ghost predicate Written(d: Image, i: int, position: int, src: seq<byte>, d': Image)
    requires HeadersValid(d)
  {
    && 0 <= i < NUM_DIR_ENTRIES && TableOf(d)[i].inUse && EntryValid(d, TableOf(d)[i])
    && var h := HeaderAt(d, TableOf(d)[i].sector);
    && SameExcept(d, d', set s | s in h.Blocks())
    && 0 <= position && position + |src| <= h.numBytes
    && Contents(d', h) == Splice(Contents(d, h), position, src)
  }

  datatype Op =
    | Create(name: CString, size: int, success: bool)
    | Remove(name: CString, success: bool)
    | Write(name: CString, position: int, src: seq<byte>)

  /** One operation on the file system, as a relation between images. */
  ghost predicate Step(d: Image, op: Op, d': Image) {
    HeadersValid(d) &&
    match op
    case Create(name, size, success) =>
      && 0 <= size <= MAX_FILE_SIZE
      && success == !CannotCreate(d, NameKey(name), size)
      && if success then exists s :: Created(d, NameKey(name), size, s, d') else d' == d
    case Remove(name, success) =>
      exists i :: IsIndexOf(TableOf(d), NameKey(name), i)
        && success == (i != -1) && if success then Removed(d, i, d') else d' == d
    case Write(name, position, src) =>
      exists i :: IsIndexOf(TableOf(d), NameKey(name), i) && Written(d, i, position, src, d')
  }

  // ---------- Every operation keeps the ownership invariant ----------

  /** Changes outside the system's and the files' sectors leave the headers of the files alone. */
  lemma HeadersKept(d: Image, d': Image, changed: set<int>)
    requires Inv(d) && SameExcept(d, d', changed)
    requires FREE_MAP_SECTOR !in changed && DIRECTORY_SECTOR !in changed
    requires forall i :: 0 <= i < NUM_DIR_ENTRIES && TableOf(d)[i].inUse ==> TableOf(d)[i].sector as int !in changed
    ensures MapHdr(d') == MapHdr(d) && DirHdr(d') == DirHdr(d)
    ensures EntriesOwned(d', TableOf(d)) == EntriesOwned(d, TableOf(d))
    ensures forall i :: 0 <= i < NUM_DIR_ENTRIES ==> EntryValid(d', TableOf(d)[i])
  {
    forall i | 0 <= i < NUM_DIR_ENTRIES
      ensures EntryValid(d', TableOf(d)[i])
      ensures TableOf(d)[i].inUse ==> 0 <= TableOf(d)[i].sector < NUM_SECTORS
                                      && d'[TableOf(d)[i].sector] == d[TableOf(d)[i].sector]
    {
      assert EntryValid(d, TableOf(d)[i]);
    }
    EntriesFrame(d, d', TableOf(d));
  }

  lemma FileOutside(d: Image, i: nat)
    requires Inv(d) && i < NUM_DIR_ENTRIES && TableOf(d)[i].inUse
    ensures var s := TableOf(d)[i].sector as int;
            0 <= s < NUM_SECTORS && Bits(d)[s] && s !in SystemBlocks(d)
  {
    hide Bits, TableOf, DecodeHeader, Header.WellFormed, Header.Blocks, Owned, Key;
    assert EntryValid(d, TableOf(d)[i]);
    FileSeparate(d, i);
    assert InFile(d, TableOf(d)[i], TableOf(d)[i].sector);
  }

  lemma SystemBlocksSeparate(d: Image, s: int32)
    requires Inv(d)
    ensures FREE_MAP_SECTOR !in SystemBlocks(d) && DIRECTORY_SECTOR !in SystemBlocks(d)
    ensures forall i :: 0 <= i < NUM_DIR_ENTRIES && TableOf(d)[i].inUse ==> TableOf(d)[i].sector as int !in SystemBlocks(d)
    ensures 0 <= s < NUM_SECTORS && !Bits(d)[s] ==>
              s != FREE_MAP_SECTOR && s != DIRECTORY_SECTOR && s as int !in SystemBlocks(d)
              && forall i :: 0 <= i < NUM_DIR_ENTRIES && TableOf(d)[i].inUse ==> TableOf(d)[i].sector != s
  {
    SystemSeparate(d);
    hide Bits, TableOf, DecodeHeader, Header.WellFormed, Header.Blocks, Owned, Key;
    forall i | 0 <= i < NUM_DIR_ENTRIES && TableOf(d)[i].inUse
      ensures TableOf(d)[i].sector as int !in SystemBlocks(d)
      ensures 0 <= s < NUM_SECTORS && !Bits(d)[s] ==> TableOf(d)[i].sector != s
    {
      FileOutside(d, i);
    }
  }

  lemma {:induction false} StrictlyIncreasingCount(t: seq<int>, x: int)
    requires forall i, j :: 0 <= i < j < |t| ==> t[i] < t[j]
    ensures multiset(t)[x] == if x in t then 1 else 0
  {
    if t != [] {
      var n := |t| - 1;
      StrictlyIncreasingCount(t[..n], x);
      assert t == t[..n] + [t[n]];
    }
  }

  lemma CreateKeepsInv(d: Image, key: CString, size: int, s: int32, d': Image)
    requires Inv(d) && !HasIndex(TableOf(d), key) && Created(d, key, size, s, d')
    ensures Inv(d')
  {
    hide Bits, TableOf, DecodeHeader, Header.WellFormed, Header.Blocks, Key, EntriesOwned;
    var table, table' := TableOf(d), TableOf(d');
    var changed := {s as int} + SystemBlocks(d);
    SystemBlocksSeparate(d, s);
    HeadersKept(d, d', changed);
    var i :| 0 <= i < |table| && IsAddedAt(table, table', key, s, i);
    assert table' == table[i := table'[i]];
    var b := HeaderAt(d', s).Blocks();
    assert EntryOwned(d', table[i]) == multiset{};
    assert EntryOwned(d', table'[i]) == multiset{s as int} + multiset(b);
    forall x | 0 <= x < NUM_SECTORS
      ensures Owned(d')[x] == if Bits(d')[x] then 1 else 0
    {
      StrictlyIncreasingCount(b, x);
      CountedOnce(d, x);
      EntriesUpdate(d', table, i, table'[i], x);
    }
    forall j | 0 <= j < NUM_DIR_ENTRIES
      ensures EntryValid(d', table'[j])
    {
      assert EntryValid(d', table[j]);
    }
    AddKeepsKeysUnique(table, table', key, s, i);
  }

  lemma AddKeepsKeysUnique(table: Table, table': Table, key: CString, s: int32, i: nat)
    requires UniqueKeys(table) && !HasIndex(table, key)
    requires i < NUM_DIR_ENTRIES && IsAddedAt(table, table', key, s, i)
    ensures UniqueKeys(table')
  {
    hide Key;
    forall j, k | 0 <= j < k < NUM_DIR_ENTRIES && table'[j].inUse && table'[k].inUse
      ensures Key(table'[j]) != Key(table'[k])
    {
      assert j != i ==> table'[j] == table[j];
      assert k != i ==> table'[k] == table[k];
    }
  }

  lemma RemoveKeepsInv(d: Image, i: int, d': Image)
    requires Inv(d) && Removed(d, i, d')
    ensures Inv(d')
  {
    hide Bits, TableOf, DecodeHeader, Header.WellFormed, Header.Blocks, Key, EntriesOwned;
    var table, table' := TableOf(d), TableOf(d');
    var e := table[i];
    SystemBlocksSeparate(d, 0);
    HeadersKept(d, d', SystemBlocks(d));
    assert table' == table[i := table'[i]];
    var own := EntryOwned(d, e);
    assert EntryOwned(d', e) == own && EntryOwned(d', table'[i]) == multiset{};
    FileSeparate(d, i);
    forall x | 0 <= x < NUM_SECTORS
      ensures Owned(d')[x] == if Bits(d')[x] then 1 else 0
    {
      CountedOnce(d, x);
      EntriesUpdate(d', table, i, table'[i], x);
      assert InFile(d, e, x) <==> x in own;
    }
    forall j | 0 <= j < NUM_DIR_ENTRIES
      ensures EntryValid(d', table'[j])
    {
      assert EntryValid(d', table[j]);
    }
  }

  lemma WriteKeepsInv(d: Image, i: int, position: int, src: seq<byte>, d': Image)
    requires Inv(d) && Written(d, i, position, src, d')
    ensures Inv(d') && Bits(d') == Bits(d) && TableOf(d') == TableOf(d)
    ensures MapHdr(d') == MapHdr(d) && DirHdr(d') == DirHdr(d)
    ensures d'[TableOf(d)[i].sector] == d[TableOf(d)[i].sector]
  {
    hide Contents, BitsOfBytes, BytesTable, DecodeHeader, Header.WellFormed, Key, EntriesOwned;
    var table := TableOf(d);
    var e := table[i];
    var h := HeaderAt(d, e.sector);
    var changed := set s | s in h.Blocks();
    FileSeparate(d, i);
    SystemSeparate(d);
    forall s | s in h.Blocks()
      ensures InFile(d, e, s)
    {
    }
    forall j | 0 <= j < NUM_DIR_ENTRIES && table[j].inUse
      ensures table[j].sector as int !in changed
    {
      assert EntryValid(d, table[j]);
      if j != i && table[j].sector as int in changed {
        FilesDisjoint(d, i, j, table[j].sector);
      }
    }
    HeadersKept(d, d', changed);
    ContentsFrame(d, d', MapHdr(d), changed);
    ContentsFrame(d, d', DirHdr(d), changed);
  }

  lemma StepKeepsInv(d: Image, op: Op, d': Image)
    requires Inv(d) && Step(d, op, d')
    ensures Inv(d')
  {
    match op
    case Create(name, size, success) =>
      if success {
        var s :| Created(d, NameKey(name), size, s, d');
        CreateKeepsInv(d, NameKey(name), size, s, d');
      }
    case Remove(name, success) =>
      var i :| IsIndexOf(TableOf(d), NameKey(name), i)
        && success == (i != -1) && if success then Removed(d, i, d') else d' == d;
      if success {
        RemoveKeepsInv(d, i, d');
      }
    case Write(name, position, src) =>
      var i :| IsIndexOf(TableOf(d), NameKey(name), i) && Written(d, i, position, src, d');
      WriteKeepsInv(d, i, position, src, d');
  }

  ghost predicate IsRun(ds: seq<Image>, ops: seq<Op>) {
    |ds| == |ops| + 1 && forall i :: 0 <= i < |ops| ==> Step(ds[i], ops[i], ds[i + 1])
  }

  /** Over every run of operations, the marked sectors are exactly the disjoint union of the reachable ones. */
  lemma {:induction false} RunKeepsInv(ds: seq<Image>, ops: seq<Op>, k: nat)
    requires IsRun(ds, ops) && Inv(ds[0]) && k < |ds|
    ensures Inv(ds[k])
  {
    hide Inv, Step;
    if k > 0 {
      RunKeepsInv(ds, ops, k - 1);
      StepKeepsInv(ds[k - 1], ops[k - 1], ds[k]);
    }
  }

  // ---------- The files, as a map from names to bytes ----------

  /** The bytes of the file with the given key, if there is one. */
  ghost predicate HasFile(d: Image, key: CString, c: seq<byte>)
    requires HeadersValid(d)
  {
    exists i :: IsIndexOf(TableOf(d), key, i) && i >= 0 && EntryValid(d, TableOf(d)[i])
      && c == Contents(d, HeaderAt(d, TableOf(d)[i].sector))
  }

  ghost predicate SameFile(d: Image, d': Image, key: CString)
    requires HeadersValid(d) && HeadersValid(d')
  {
    forall c :: HasFile(d, key, c) <==> HasFile(d', key, c)
  }

  /** With unique names, any entry in use for a key is the one that lookups find. */
  lemma UniqueIndex(table: Table, key: CString, i: int)
    requires UniqueKeys(table)
    requires 0 <= i < NUM_DIR_ENTRIES && table[i].inUse && Key(table[i]) == key
    ensures IsIndexOf(table, key, i) && forall j :: IsIndexOf(table, key, j) ==> j == i
  {
    hide Key;
  }

  ghost predicate IsFor(e: Entry, key: CString) {
    e.inUse && Key(e) == key
  }

  /** The file with that key lies outside a set of sectors. */
  ghost predicate Avoids(d: Image, key: CString, changed: set<int>)
    requires HeadersValid(d)
  {
    forall j, s :: 0 <= j < NUM_DIR_ENTRIES && IsFor(TableOf(d)[j], key) && EntryValid(d, TableOf(d)[j]) ==>
                     InFile(d, TableOf(d)[j], s) ==> s !in changed
  }

  ghost predicate EntriesKept(table: Table, table': Table, key: CString) {
    forall j :: 0 <= j < NUM_DIR_ENTRIES && (IsFor(table[j], key) || IsFor(table'[j], key)) ==> table'[j] == table[j]
  }

  /** No file touches the system's sectors, nor a sector that is not marked. */
  lemma FilesAvoid(d: Image, key: CString, free: set<int>)
    requires Inv(d) && forall s :: s in free ==> 0 <= s < NUM_SECTORS && !Bits(d)[s]
    ensures Avoids(d, key, free + SystemBlocks(d))
  {
    hide Key, Bits, TableOf, DecodeHeader, Header.WellFormed, Header.Blocks, SystemBlocks, Header.NoDuplicates, Inv;
    InvHeaders(d);
    forall j, x | 0 <= j < NUM_DIR_ENTRIES && IsFor(TableOf(d)[j], key) && EntryValid(d, TableOf(d)[j])
                  && InFile(d, TableOf(d)[j], x)
      ensures x !in free + SystemBlocks(d)
    {
      FileMarked(d, j, x);
    }
  }

  /** A file other than the one at entry `i` is not affected by what happens to entry `i`. */
  lemma OtherFileKept(d: Image, d': Image, changed: set<int>, key: CString)
    requires Inv(d) && Inv(d') && SameExcept(d, d', changed)
    requires Avoids(d, key, changed) && EntriesKept(TableOf(d), TableOf(d'), key)
    ensures SameFile(d, d', key)
  {
    hide Key, TableOf, Bits, Contents, DecodeHeader, Header.WellFormed, Owned;
    forall i | IsIndexOf(TableOf(d), key, i) && i >= 0
      ensures IsIndexOf(TableOf(d'), key, i)
      ensures d'[TableOf(d)[i].sector] == d[TableOf(d)[i].sector]
      ensures Contents(d', HeaderAt(d', TableOf(d')[i].sector)) == Contents(d, HeaderAt(d, TableOf(d)[i].sector))
    {
      var e := TableOf(d)[i];
      assert EntryValid(d, e);
      UniqueIndex(TableOf(d'), key, i);
      assert InFile(d, e, e.sector);
      forall s | s in HeaderAt(d, e.sector).Blocks()
        ensures s !in changed
      {
        assert InFile(d, e, s);
      }
      ContentsFrame(d, d', HeaderAt(d, e.sector), changed);
    }
    forall i | IsIndexOf(TableOf(d'), key, i) && i >= 0
      ensures IsIndexOf(TableOf(d), key, i)
    {
      UniqueIndex(TableOf(d), key, i);
    }
  }

  /** `Create` adds one file of the requested size and keeps every other file's bytes. */
  lemma CreateKeepsFiles(d: Image, key: CString, size: int, s: int32, d': Image)
    requires Inv(d) && !HasIndex(TableOf(d), key) && Created(d, key, size, s, d')
    ensures Inv(d')
    ensures exists c :: HasFile(d', key, c) && |c| == size
    ensures forall other :: other != key ==> SameFile(d, d', other)
  {
    CreateKeepsInv(d, key, size, s, d');
    hide Key, TableOf, Bits, Contents, DecodeHeader, Header.WellFormed, Header.Blocks, Owned, Allocated, SystemBlocks,
      SameFile, SameExcept;
    var i :| 0 <= i < NUM_DIR_ENTRIES && IsAddedAt(TableOf(d), TableOf(d'), key, s, i);
    UniqueIndex(TableOf(d'), key, i);
    assert EntryValid(d', TableOf(d')[i]);
    assert HasFile(d', key, Contents(d', HeaderAt(d', s)));
    forall other | other != key
      ensures SameFile(d, d', other)
    {
      CreateKeepsOther(d, key, size, s, d', other);
    }
  }

  lemma AddKeepsOthers(table: Table, table': Table, key: CString, s: int32, other: CString)
    requires Added(table, table', key, s) && other != key
    ensures EntriesKept(table, table', other)
  {
    hide Key;
  }

  lemma CreateKeepsOther(d: Image, key: CString, size: int, s: int32, d': Image, other: CString)
    requires Inv(d) && Inv(d') && Created(d, key, size, s, d') && other != key
    ensures SameFile(d, d', other)
  {
    hide Key, TableOf, Bits, Contents, DecodeHeader, Header.WellFormed, Header.Blocks, Owned, Allocated, SystemBlocks,
      SameFile, SameExcept, Avoids, EntriesKept, UniqueKeys, EntryValid, Added;
    AddKeepsOthers(TableOf(d), TableOf(d'), key, s, other);
    FilesAvoid(d, other, {s as int});
    OtherFileKept(d, d', {s as int} + SystemBlocks(d), other);
  }

  /** `Remove` deletes exactly the named file and keeps every other file's bytes. */
  lemma RemoveKeepsFiles(d: Image, i: int, d': Image)
    requires Inv(d) && Removed(d, i, d')
    ensures Inv(d')
    ensures !HasIndex(TableOf(d'), Key(TableOf(d)[i]))
    ensures forall other :: other != Key(TableOf(d)[i]) ==> SameFile(d, d', other)
  {
    RemoveKeepsInv(d, i, d');
    hide Key, TableOf, Bits, Contents, DecodeHeader, Header.WellFormed, Header.Blocks, Owned, SystemBlocks, SameFile;
    var key := Key(TableOf(d)[i]);
    NoLongerFor(TableOf(d), i);
    forall other | other != key
      ensures SameFile(d, d', other)
    {
      RemoveKeepsOther(d, i, d', other);
    }
  }

  lemma NoLongerFor(table: Table, i: nat)
    requires i < NUM_DIR_ENTRIES && UniqueKeys(table) && table[i].inUse
    ensures !HasIndex(table[i := table[i].(inUse := false)], Key(table[i]))
  {
    hide Key;
  }

  lemma RemoveKeepsEntries(table: Table, i: nat, other: CString)
    requires i < NUM_DIR_ENTRIES && table[i].inUse && Key(table[i]) != other
    ensures EntriesKept(table, table[i := table[i].(inUse := false)], other)
  {
    hide Key;
  }

  lemma RemoveKeepsOther(d: Image, i: int, d': Image, other: CString)
    requires Inv(d) && Inv(d') && Removed(d, i, d') && other != Key(TableOf(d)[i])
    ensures SameFile(d, d', other)
  {
    hide Key, TableOf, Bits, Contents, DecodeHeader, Header.WellFormed, Header.Blocks, Owned, SystemBlocks,
      SameFile, SameExcept, Avoids, EntriesKept, UniqueKeys, EntryValid, InFile;
    RemoveKeepsEntries(TableOf(d), i, other);
    FilesAvoid(d, other, {});
    assert {} + SystemBlocks(d) == SystemBlocks(d);
    OtherFileKept(d, d', SystemBlocks(d), other);
  }

  /** A write through an open file splices that file's bytes and keeps every other file's. */
  lemma WriteKeepsFiles(d: Image, i: int, position: int, src: seq<byte>, d': Image)
    requires Inv(d) && Written(d, i, position, src, d')
    ensures Inv(d')
    ensures HasFile(d', Key(TableOf(d)[i]), Splice(Contents(d, HeaderAt(d, TableOf(d)[i].sector)), position, src))
    ensures forall other :: other != Key(TableOf(d)[i]) ==> SameFile(d, d', other)
  {
    WriteKeepsInv(d, i, position, src, d');
    FileSeparate(d, i);
    hide Key, TableOf, Bits, Contents, DecodeHeader, Header.WellFormed, Header.Blocks, Owned, Splice;
    var e := TableOf(d)[i];
    var changed := set s | s in HeaderAt(d, e.sector).Blocks();
    assert e.sector as int !in changed;
    UniqueIndex(TableOf(d'), Key(e), i);
    forall other | other != Key(e)
      ensures SameFile(d, d', other)
    {
      FileAvoidsOther(d, i, other);
      OtherFileKept(d, d', changed, other);
    }
  }

  lemma FileAvoidsOther(d: Image, i: nat, other: CString)
    requires Inv(d) && i < NUM_DIR_ENTRIES && TableOf(d)[i].inUse && EntryValid(d, TableOf(d)[i])
    requires Key(TableOf(d)[i]) != other
    ensures Avoids(d, other, set s | s in HeaderAt(d, TableOf(d)[i].sector).Blocks())
  {
    hide Key, Bits, TableOf, DecodeHeader, Header.WellFormed, Header.Blocks;
    var e := TableOf(d)[i];
    var changed := set s | s in HeaderAt(d, e.sector).Blocks();
    forall j, x | 0 <= j < NUM_DIR_ENTRIES && IsFor(TableOf(d)[j], other) && EntryValid(d, TableOf(d)[j])
                  && InFile(d, TableOf(d)[j], x)
      ensures x !in changed
    {
      assert x in changed ==> InFile(d, e, x);
      FilesDisjoint(d, j, i, x);
    }
  }

  /** `h` is the header of the file with that key, as stored in the header sector of its entry. */
  ghost predicate IsHeaderOf(d: Image, key: CString, h: Header)
    requires HeadersValid(d)
  {
    exists i :: IsIndexOf(TableOf(d), key, i) && i >= 0 && EntryValid(d, TableOf(d)[i])
      && h == HeaderAt(d, TableOf(d)[i].sector)
  }

  /** A name has at most one file. */
  lemma FileIsUnique(d: Image, key: CString, h: Header, c: seq<byte>)
    requires Inv(d) && IsHeaderOf(d, key, h) && HasFile(d, key, c)
    ensures h.WellFormed() && Contents(d, h) == c
  {
    hide Key, TableOf, Contents, DecodeHeader, Header.WellFormed;
    var i :| IsIndexOf(TableOf(d), key, i) && i >= 0 && EntryValid(d, TableOf(d)[i]) && h == HeaderAt(d, TableOf(d)[i].sector);
    var j :| IsIndexOf(TableOf(d), key, j) && j >= 0 && EntryValid(d, TableOf(d)[j])
      && c == Contents(d, HeaderAt(d, TableOf(d)[j].sector));
    UniqueIndex(TableOf(d), key, i);
  }

  /** A write through an open file is a step of the file system, and all that follows from that. */
  lemma WriteIsStep(d: Image, name: CString, h: Header, position: int, src: seq<byte>, d': Image)
    requires Inv(d) && IsHeaderOf(d, NameKey(name), h)
    requires h.WellFormed() && 0 <= position && position + |src| <= h.numBytes
    requires SameExcept(d, d', set s | s in h.Blocks()) && Contents(d', h) == Splice(Contents(d, h), position, src)
    ensures Step(d, Op.Write(name, position, src), d')
    ensures Inv(d') && MapHdr(d') == MapHdr(d) && DirHdr(d') == DirHdr(d)
    ensures IsHeaderOf(d', NameKey(name), h) && HasFile(d', NameKey(name), Splice(Contents(d, h), position, src))
    ensures forall other :: other != NameKey(name) ==> SameFile(d, d', other)
  {
    hide Key, TableOf, Contents, DecodeHeader, Header.WellFormed, Header.Blocks, SameFile, SameExcept, Bits, Owned, Splice;
    var key := NameKey(name);
    var i :| IsIndexOf(TableOf(d), key, i) && i >= 0 && EntryValid(d, TableOf(d)[i]) && h == HeaderAt(d, TableOf(d)[i].sector);
    assert Written(d, i, position, src, d');
    WriteKeepsInv(d, i, position, src, d');
    WriteKeepsFiles(d, i, position, src, d');
    assert EntryValid(d', TableOf(d')[i]);
  }

  /** Removing a file that was just created restores the bitmap bit for bit and every name lookup. */
  lemma CreateThenRemove(d: Image, key: CString, size: int, s: int32, d1: Image, i: int, d2: Image)
    requires Inv(d) && !HasIndex(TableOf(d), key) && Created(d, key, size, s, d1)
    requires IsIndexOf(TableOf(d1), key, i) && i != -1 && Removed(d1, i, d2)
    ensures Bits(d2) == Bits(d)
    ensures forall k, j :: IsIndexOf(TableOf(d), k, j) <==> IsIndexOf(TableOf(d2), k, j)
    ensures forall j :: 0 <= j < NUM_DIR_ENTRIES && TableOf(d)[j].inUse ==> TableOf(d2)[j] == TableOf(d)[j]
  {
    CreateKeepsInv(d, key, size, s, d1);
    hide Key, TableOf, Bits, Contents, DecodeHeader, Header.WellFormed, Header.Blocks, Owned;
    var a :| 0 <= a < NUM_DIR_ENTRIES && IsAddedAt(TableOf(d), TableOf(d1), key, s, a);
    UniqueIndex(TableOf(d1), key, a);
    assert i == a;
    AllocateThenFree(Bits(d), s, HeaderAt(d1, s).Blocks(), Bits(d1), Bits(d2));
    AddThenClear(TableOf(d), TableOf(d1), key, s, a, TableOf(d2));
  }

  lemma AllocateThenFree(bits: seq<bool>, s: int, b: seq<int>, bits1: seq<bool>, bits2: seq<bool>)
    requires 0 <= s < |bits| && !bits[s] && Allocated(bits[s := true], bits1, b) && |bits2| == |bits|
    requires forall x :: 0 <= x < |bits| ==> bits2[x] == (bits1[x] && !(x == s || x in b))
    ensures bits2 == bits
  {
    forall x | 0 <= x < |bits|
      ensures bits2[x] == bits[x]
    {
      assert x in b ==> !bits[s := true][x];
    }
  }

  lemma AddThenClear(table: Table, table1: Table, key: CString, s: int32, a: nat, table2: Table)
    requires a < NUM_DIR_ENTRIES && IsAddedAt(table, table1, key, s, a)
    requires table2 == table1[a := table1[a].(inUse := false)]
    ensures forall k, j :: IsIndexOf(table, k, j) <==> IsIndexOf(table2, k, j)
    ensures forall j :: 0 <= j < NUM_DIR_ENTRIES && table[j].inUse ==> table2[j] == table[j]
  {
    hide Key;
    assert forall j :: 0 <= j < NUM_DIR_ENTRIES && j != a ==> table2[j] == table[j];
  }

  // ---------- The operations ----------

  /** The three flushes at the end of `Create`: the new header, the directory, the bitmap. */
  lemma CreateFlushes(d: Image, key: CString, s: int32, h: Header, table': Table, bits': seq<bool>,
                      d1: Image, d2: Image, d3: Image)
    requires Inv(d) && 0 <= s < NUM_SECTORS && !Bits(d)[s] && forall i :: 0 <= i < s ==> Bits(d)[i]
    requires h.WellFormed() && Added(TableOf(d), table', key, s) && Allocated(Bits(d)[s := true], bits', h.Blocks())
    requires d1 == d[s := d1[s]] && HeaderAt(d1, s) == h
    requires SameExcept(d1, d2, set x | x in DirHdr(d).Blocks()) && BytesTable(Contents(d2, DirHdr(d))) == table'
    requires SameExcept(d2, d3, set x | x in MapHdr(d).Blocks()) && BitsOfBytes(Contents(d3, MapHdr(d))) == bits'
    ensures Created(d, key, h.numBytes, s, d3)
  {
    hide Contents, DecodeHeader, Header.Blocks, BytesTable, BitsOfBytes, Added, Allocated, CountClear;
    SystemSeparate(d);
    SystemBlocksSeparate(d, s);
    ContentsFrame(d2, d3, DirHdr(d), set x | x in MapHdr(d).Blocks());
    assert s as int !in SystemBlocks(d);
    assert d3[s] == d1[s] && d3[FREE_MAP_SECTOR] == d[FREE_MAP_SECTOR] && d3[DIRECTORY_SECTOR] == d[DIRECTORY_SECTOR];
  }

  lemma CreateFails(d: Image, name: CString, size: int, i: int)
    requires HeadersValid(d) && 0 <= size <= MAX_FILE_SIZE && IsIndexOf(TableOf(d), NameKey(name), i)
    requires i != -1 || SECTOR_SIZE * (CountClear(Bits(d)) - 1) < size || forall e :: e in TableOf(d) ==> e.inUse
    ensures Step(d, Op.Create(name, size, false), d)
  {
    hide Key, TableOf, Bits, CountClear;
  }

  lemma CreateSucceeds(d: Image, name: CString, size: int, s: int32, d': Image)
    requires HeadersValid(d) && 0 <= size <= MAX_FILE_SIZE && IsIndexOf(TableOf(d), NameKey(name), -1)
    requires SECTOR_SIZE * (CountClear(Bits(d)) - 1) >= size && exists e :: e in TableOf(d) && !e.inUse
    requires Created(d, NameKey(name), size, s, d')
    ensures Step(d, Op.Create(name, size, true), d')
  {
    hide Key, TableOf, Bits, CountClear, Created;
  }

  lemma SystemHeaders(d: Image)
    requires Inv(d)
    ensures HeadersValid(d) && MapHdr(d).WellFormed() && DirHdr(d).WellFormed()
    ensures MapHdr(d).NoDuplicates() && DirHdr(d).NoDuplicates()
  {
    SystemSeparate(d);
  }

  /** The two flushes at the end of `Remove`: the bitmap, the directory. */
  lemma RemoveFlushes(d: Image, i: int, bits': seq<bool>, d1: Image, d2: Image)
    requires Inv(d) && 0 <= i < NUM_DIR_ENTRIES && TableOf(d)[i].inUse && EntryValid(d, TableOf(d)[i])
    requires |bits'| == NUM_SECTORS
    requires forall s :: 0 <= s < NUM_SECTORS ==> bits'[s] == (Bits(d)[s] && !InFile(d, TableOf(d)[i], s))
    requires SameExcept(d, d1, set x | x in MapHdr(d).Blocks()) && BitsOfBytes(Contents(d1, MapHdr(d))) == bits'
    requires SameExcept(d1, d2, set x | x in DirHdr(d).Blocks())
    requires BytesTable(Contents(d2, DirHdr(d))) == TableOf(d)[i := TableOf(d)[i].(inUse := false)]
    ensures Removed(d, i, d2)
  {
    hide Contents, DecodeHeader, Header.Blocks, BytesTable, BitsOfBytes;
    SystemSeparate(d);
    SystemBlocksSeparate(d, 0);
    ContentsFrame(d1, d2, MapHdr(d), set x | x in DirHdr(d).Blocks());
    assert d2[FREE_MAP_SECTOR] == d[FREE_MAP_SECTOR] && d2[DIRECTORY_SECTOR] == d[DIRECTORY_SECTOR];
  }

  lemma {:induction false} NothingOwned(d: Image, table: seq<Entry>)
    requires forall e :: e in table ==> !e.inUse
    ensures EntriesOwned(d, table) == multiset{}
  {
    if table != [] {
      NothingOwned(d, table[..|table| - 1]);
    }
  }

  /** The two system files have been given the lowest sectors of an otherwise empty disk. */
  ghost predicate SystemFilesAllocated(mapHdr: Header, dirHdr: Header, bits: seq<bool>) {
    && mapHdr.WellFormed() && mapHdr.numBytes == FREE_MAP_FILE_SIZE
    && dirHdr.WellFormed() && dirHdr.numBytes == DIRECTORY_FILE_SIZE
    && exists bits1 ::
         && Allocated(seq(NUM_SECTORS, s => s == FREE_MAP_SECTOR || s == DIRECTORY_SECTOR), bits1, mapHdr.Blocks())
         && Allocated(bits1, bits, dirHdr.Blocks())
  }

  lemma SystemFilesDistinct(mapHdr: Header, dirHdr: Header, bits: seq<bool>)
    requires SystemFilesAllocated(mapHdr, dirHdr, bits)
    ensures |bits| == NUM_SECTORS && mapHdr.NoDuplicates() && dirHdr.NoDuplicates()
    ensures mapHdr.WellFormed() && mapHdr.numBytes == FREE_MAP_FILE_SIZE
    ensures dirHdr.WellFormed() && dirHdr.numBytes == DIRECTORY_FILE_SIZE
    ensures FREE_MAP_SECTOR !in mapHdr.Blocks() && DIRECTORY_SECTOR !in mapHdr.Blocks()
    ensures FREE_MAP_SECTOR !in dirHdr.Blocks() && DIRECTORY_SECTOR !in dirHdr.Blocks()
    ensures forall x :: x in mapHdr.Blocks() ==> x !in dirHdr.Blocks()
  {
    hide Header.Blocks;
    var m, r := mapHdr.Blocks(), dirHdr.Blocks();
    var bits0 := seq(NUM_SECTORS, s => s == FREE_MAP_SECTOR || s == DIRECTORY_SECTOR);
    var bits1 :| Allocated(bits0, bits1, m) && Allocated(bits1, bits, r);
    assert forall x :: x in m ==> !bits0[x];
    assert forall x :: x in r ==> !bits1[x];
  }

  lemma SystemFilesCounted(mapHdr: Header, dirHdr: Header, bits: seq<bool>, x: int)
    requires SystemFilesAllocated(mapHdr, dirHdr, bits) && 0 <= x < NUM_SECTORS
    ensures |bits| == NUM_SECTORS
    ensures (if bits[x] then 1 else 0)
         == multiset{FREE_MAP_SECTOR, DIRECTORY_SECTOR}[x] + multiset(mapHdr.Blocks())[x] + multiset(dirHdr.Blocks())[x]
  {
    SystemFilesDistinct(mapHdr, dirHdr, bits);
    hide Header.Blocks;
    var m, r := mapHdr.Blocks(), dirHdr.Blocks();
    var bits0 := seq(NUM_SECTORS, s => s == FREE_MAP_SECTOR || s == DIRECTORY_SECTOR);
    var bits1 :| Allocated(bits0, bits1, m) && Allocated(bits1, bits, r);
    StrictlyIncreasingCount(m, x);
    StrictlyIncreasingCount(r, x);
  }

  /** What formatting leaves behind: two marked header sectors, two system files, an empty directory. */
  lemma FormatFlushes(mapHdr: Header, dirHdr: Header, bits: seq<bool>, table: Table, d1: Image, d2: Image, d3: Image)
    requires SystemFilesAllocated(mapHdr, dirHdr, bits)
    requires mapHdr.WellFormed() && mapHdr.numBytes == FREE_MAP_FILE_SIZE
    requires dirHdr.WellFormed() && dirHdr.numBytes == DIRECTORY_FILE_SIZE
    requires forall i :: 0 <= i < NUM_DIR_ENTRIES ==> !table[i].inUse
    requires HeaderAt(d1, FREE_MAP_SECTOR) == mapHdr && HeaderAt(d1, DIRECTORY_SECTOR) == dirHdr
    requires SameExcept(d1, d2, set x | x in mapHdr.Blocks()) && BitsOfBytes(Contents(d2, mapHdr)) == bits
    requires SameExcept(d2, d3, set x | x in dirHdr.Blocks()) && BytesTable(Contents(d3, dirHdr)) == table
    ensures Inv(d3) && TableOf(d3) == table && MapHdr(d3) == mapHdr && DirHdr(d3) == dirHdr
  {
    hide Contents, DecodeHeader, Header.Blocks, Header.WellFormed, BytesTable, BitsOfBytes, EntriesOwned,
      SystemFilesAllocated, Key, Owned, Header.NoDuplicates;
    SystemFilesDistinct(mapHdr, dirHdr, bits);
    assert d3[FREE_MAP_SECTOR] == d1[FREE_MAP_SECTOR] && d3[DIRECTORY_SECTOR] == d1[DIRECTORY_SECTOR];
    ContentsFrame(d2, d3, mapHdr, set x | x in dirHdr.Blocks());
    FormatCounts(d3, mapHdr, dirHdr, bits);
  }

  lemma FormatCounts(d: Image, mapHdr: Header, dirHdr: Header, bits: seq<bool>)
    requires SystemFilesAllocated(mapHdr, dirHdr, bits)
    requires MapHdr(d) == mapHdr && DirHdr(d) == dirHdr && HeadersValid(d)
    requires forall i :: 0 <= i < NUM_DIR_ENTRIES ==> !TableOf(d)[i].inUse
    ensures |bits| == NUM_SECTORS && forall x :: 0 <= x < NUM_SECTORS ==> Owned(d)[x] == if bits[x] then 1 else 0
  {
    SystemFilesDistinct(mapHdr, dirHdr, bits);
    NothingOwned(d, TableOf(d));
    hide TableOf, Header.NoDuplicates, DecodeHeader, Header.Blocks, Header.WellFormed, EntriesOwned, SystemFilesAllocated;
    forall x | 0 <= x < NUM_SECTORS
      ensures Owned(d)[x] == if bits[x] then 1 else 0
    {
      SystemFilesCounted(mapHdr, dirHdr, bits, x);
    }
  }

  class FileSystem {
    const disk: SynchDisk
    const freeMapFile: OpenFile
    const directoryFile: OpenFile

    /** The two system files are kept open; their cached headers are those on the disk. */
    ghost predicate Valid()
      reads this, disk, freeMapFile, freeMapFile.hdr, freeMapFile.hdr.dataSectors
      reads directoryFile, directoryFile.hdr, directoryFile.hdr.dataSectors
    {
      && freeMapFile.disk == disk && directoryFile.disk == disk
      && freeMapFile.hdr.Valid() && freeMapFile.hdr.View() == MapHdr(disk.image)
      && directoryFile.hdr.Valid() && directoryFile.hdr.View() == DirHdr(disk.image)
      && Inv(disk.image)
    }

    /** The open files are the bitmap, 128 bytes with its header in sector 0, and the directory, 200 bytes with its in sector 1. */
    ghost predicate HoldsHeaders()
      reads this, disk, freeMapFile, freeMapFile.hdr, freeMapFile.hdr.dataSectors
      reads directoryFile, directoryFile.hdr, directoryFile.hdr.dataSectors
    {
      && freeMapFile.hdr.View() == DecodeHeader(disk.image[0]) && freeMapFile.hdr.numBytes == 128
      && directoryFile.hdr.View() == DecodeHeader(disk.image[1]) && directoryFile.hdr.numBytes == 200
    }

    lemma ValidHoldsHeaders()
      requires Valid()
      ensures HoldsHeaders()
    {
    }

    /** Formats the disk: whatever it held, it now holds an empty directory and the matching bitmap. */
    constructor Format(disk: SynchDisk)
      modifies disk
      ensures Valid() && this.disk == disk && HoldsHeaders()
      ensures forall e :: e in TableOf(disk.image) ==> !e.inUse
    {
      hide Contents, DecodeHeader, EncodeHeader, Header.Blocks, Header.WellFormed, Header.NoDuplicates, BytesTable,
        BitsOfBytes, Allocated, SystemFilesAllocated, Inv;
      var freeMap, mapHdr, dirHdr := AllocateSystemFiles();
      var directory := new Directory();
      mapHdr.WriteBack(disk, FREE_MAP_SECTOR);
      dirHdr.WriteBack(disk, DIRECTORY_SECTOR);
      this.disk := disk;
      freeMapFile := new OpenFile(disk, FREE_MAP_SECTOR);
      directoryFile := new OpenFile(disk, DIRECTORY_SECTOR);
      new;
      FlushFormatted(freeMap, directory);
      ValidHoldsHeaders();
    }

    static method AllocateSystemFiles() returns (freeMap: Bitmap, mapHdr: FileHeader, dirHdr: FileHeader)
      ensures fresh(freeMap) && fresh(freeMap.words) && freeMap.Valid() && freeMap.numBits == NUM_SECTORS
      ensures fresh(mapHdr) && fresh(mapHdr.dataSectors) && mapHdr.Valid()
      ensures fresh(dirHdr) && fresh(dirHdr.dataSectors) && dirHdr.Valid()
      ensures SystemFilesAllocated(mapHdr.View(), dirHdr.View(), freeMap.Bits())
    {
      hide Header.Blocks, Allocated, CountClear;
      freeMap := new Bitmap(NUM_SECTORS);
      mapHdr := new FileHeader();
      dirHdr := new FileHeader();
      ghost var empty := freeMap.Bits();
      AllClear(empty);
      CountClearSet(empty, FREE_MAP_SECTOR);
      freeMap.Mark(FREE_MAP_SECTOR);
      CountClearSet(freeMap.Bits(), DIRECTORY_SECTOR);
      freeMap.Mark(DIRECTORY_SECTOR);
      ghost var bits0 := freeMap.Bits();
      assert bits0 == seq(NUM_SECTORS, s => s == FREE_MAP_SECTOR || s == DIRECTORY_SECTOR);
      var ok := mapHdr.Allocate(freeMap, FREE_MAP_FILE_SIZE);
      assert ok;
      ghost var bits1 := freeMap.Bits();
      AllocatedCount(bits0, bits1, mapHdr.View().Blocks());
      ok := dirHdr.Allocate(freeMap, DIRECTORY_FILE_SIZE);
      assert ok;
    }

    method FlushFormatted(freeMap: Bitmap, directory: Directory)
      requires freeMap.Valid() && freeMap.numBits == NUM_SECTORS && directory.Valid()
      requires forall i :: 0 <= i < NUM_DIR_ENTRIES ==> !directory.table[i].inUse
      requires freeMapFile.disk == directoryFile.disk == disk
      requires freeMapFile.hdr.Valid() && freeMapFile.hdr.View() == MapHdr(disk.image)
      requires directoryFile.hdr.Valid() && directoryFile.hdr.View() == DirHdr(disk.image)
      requires SystemFilesAllocated(MapHdr(disk.image), DirHdr(disk.image), freeMap.Bits())
      modifies disk
      ensures Valid()
      ensures TableOf(disk.image) == directory.table[..]
    {
      hide Contents, DecodeHeader, Header.Blocks, BytesTable, BitsOfBytes, EntriesOwned, Allocated, SystemFilesAllocated;
      ghost var d1, bits := disk.image, freeMap.Bits();
      SystemFilesDistinct(MapHdr(d1), DirHdr(d1), bits);
      PersistentBitmaps.WriteBack(freeMap, freeMapFile);
      ghost var d2 := disk.image;
      directory.WriteBack(directoryFile);
      FormatFlushes(MapHdr(d1), DirHdr(d1), bits, directory.table[..], d1, d2, disk.image);
    }

    /** Without formatting: only opens the two system files. */
    constructor Mount(disk: SynchDisk)
      requires Inv(disk.image)
      ensures Valid() && this.disk == disk && disk.image == old(disk.image) && HoldsHeaders()
    {
      this.disk := disk;
      freeMapFile := new OpenFile(disk, FREE_MAP_SECTOR);
      directoryFile := new OpenFile(disk, DIRECTORY_SECTOR);
    }

    /** `new Directory` followed by `FetchFrom`, as every operation begins. */
    method LoadDirectory() returns (directory: Directory)
      requires Valid()
      ensures directory.Valid() && fresh(directory) && fresh(directory.table)
      ensures directory.table[..] == TableOf(disk.image)
    {
      SystemSeparate(disk.image);
      directory := new Directory();
      directory.FetchFrom(directoryFile);
    }

    method Open(name: CString) returns (openFile: OpenFile?)
      requires Valid()
      ensures openFile == null <==> !HasIndex(TableOf(disk.image), NameKey(name))
      ensures openFile != null ==>
                && fresh(openFile) && openFile.disk == disk && openFile.Valid() && openFile.seekPosition == 0
                && IsHeaderOf(disk.image, NameKey(name), openFile.hdr.View())
                && HasFile(disk.image, NameKey(name), Contents(disk.image, openFile.hdr.View()))
    {
      SystemSeparate(disk.image);
      var directory := LoadDirectory();
      var sector, i := FindEntry(directory, name);
      openFile := null;
      if sector >= 0 {
        assert EntryValid(disk.image, TableOf(disk.image)[i]);
        FileSeparate(disk.image, i);
        openFile := new OpenFile(disk, sector);
      }
    }

    /** `OpenFile::WriteAt` on a file of this file system: only the part of the request that lies in the file
        changes, and no other file does. */
    method WriteOpened(openFile: OpenFile, ghost name: CString, source: array<byte>, numBytes: int, position: int)
      returns (n: int)
      requires Valid() && openFile.disk == disk && openFile.Valid()
      requires IsHeaderOf(disk.image, NameKey(name), openFile.hdr.View())
      requires 0 <= position && position + numBytes <= MAX_INT
      requires Clip(openFile.hdr.numBytes, numBytes, position) <= source.Length
      modifies disk
      ensures Valid() && IsHeaderOf(disk.image, NameKey(name), openFile.hdr.View())
      ensures n == Clip(openFile.hdr.numBytes, numBytes, position)
      ensures n <= 0 ==> disk.image == old(disk.image)
      ensures n > 0 ==>
                && Step(old(disk.image), Op.Write(name, position, source[..n]), disk.image)
                && HasFile(disk.image, NameKey(name),
                           Splice(Contents(old(disk.image), openFile.hdr.View()), position, source[..n]))
                && forall other :: other != NameKey(name) ==> SameFile(old(disk.image), disk.image, other)
    {
      hide Contents, DecodeHeader, Header.Blocks, Header.NoDuplicates, Splice, IsHeaderOf, HasFile, SameFile, Step, Inv,
        SameExcept;
      n := openFile.WriteAt(source, numBytes, position);
      if n > 0 {
        WriteIsStep(old(disk.image), name, openFile.hdr.View(), position, source[..n], disk.image);
      }
    }

    method Create(name: CString, initialSize: int) returns (success: bool)
      requires Valid() && 0 <= initialSize <= MAX_FILE_SIZE
      modifies disk
      ensures Valid()
      ensures Step(old(disk.image), Op.Create(name, initialSize, success), disk.image)
    {
      hide Contents, DecodeHeader, Header.Blocks, Header.NoDuplicates, BytesTable, BitsOfBytes, Added, Allocated, Created,
        CountClear, Owned, Key, UniqueKeys, Step, EntryValid;
      ghost var d := disk.image;
      var directory := LoadDirectory();
      var present, i := FindEntry(directory, name);
      if present != -1 {
        CreateFails(d, name, initialSize, i);
        return false;
      }
      var hdr, freeMap, sector;
      success, hdr, freeMap, sector := Reserve(directory, name, initialSize);
      if success {
        FlushCreated(hdr, directory, freeMap, NameKey(name), sector);
        CreateSucceeds(d, name, initialSize, sector, disk.image);
      }
    }

    /** In memory: finds a sector for the header, adds the name to the directory, allocates the data sectors. */
    method Reserve(directory: Directory, name: CString, initialSize: int)
      returns (success: bool, hdr: FileHeader, freeMap: Bitmap, sector: int)
      requires Valid() && 0 <= initialSize <= MAX_FILE_SIZE
      requires directory.Valid() && directory.table[..] == TableOf(disk.image)
      requires IsIndexOf(TableOf(disk.image), NameKey(name), -1)
      modifies directory.table
      ensures directory.Valid()
      ensures !success ==> Step(disk.image, Op.Create(name, initialSize, false), disk.image)
      ensures success ==>
                && hdr.Valid() && hdr.View().WellFormed() && hdr.numBytes == initialSize
                && freeMap.Valid() && freeMap.numBits == NUM_SECTORS
                && 0 <= sector < NUM_SECTORS && !Bits(disk.image)[sector]
                && (forall s :: 0 <= s < sector ==> Bits(disk.image)[s])
                && (exists e :: e in TableOf(disk.image) && !e.inUse)
                && SECTOR_SIZE * (CountClear(Bits(disk.image)) - 1) >= initialSize
                && Added(TableOf(disk.image), directory.table[..], NameKey(name), sector)
                && Allocated(Bits(disk.image)[sector := true], freeMap.Bits(), hdr.View().Blocks())
    {
      hide Contents, DecodeHeader, Header.Blocks, Header.NoDuplicates, Header.WellFormed, BytesTable, BitsOfBytes, Added,
        Allocated, CountClear, Key, Step, Inv;
      ghost var d := disk.image;
      SystemHeaders(d);
      hdr := new FileHeader();
      freeMap := PersistentBitmaps.FromFile(freeMapFile);
      success := false;
      sector := freeMap.FindAndSet();
      if sector == -1 {
        CreateFails(d, name, initialSize, -1);
        return;
      }
      CountClearSet(Bits(d), sector);
      var added := directory.Add(name, sector);
      if !added {
        CreateFails(d, name, initialSize, -1);
        return;
      }
      success := hdr.Allocate(freeMap, initialSize);
      if !success {
        CreateFails(d, name, initialSize, -1);
      }
    }

    /** Everything worked: flush the new header, the directory and the bitmap back to disk. */
    method FlushCreated(hdr: FileHeader, directory: Directory, freeMap: Bitmap, ghost key: CString, sector: int32)
      requires Valid() && hdr.Valid() && directory.Valid() && freeMap.Valid() && freeMap.numBits == NUM_SECTORS
      requires !HasIndex(TableOf(disk.image), key)
      requires 0 <= sector < NUM_SECTORS && !Bits(disk.image)[sector] && forall i :: 0 <= i < sector ==> Bits(disk.image)[i]
      requires hdr.View().WellFormed() && Added(TableOf(disk.image), directory.table[..], key, sector)
      requires Allocated(Bits(disk.image)[sector := true], freeMap.Bits(), hdr.View().Blocks())
      modifies disk
      ensures Valid() && Created(old(disk.image), key, hdr.numBytes, sector, disk.image)
    {
      hide Contents, DecodeHeader, Header.Blocks, Header.NoDuplicates, BytesTable, BitsOfBytes, Added, Allocated, Owned,
        Key, UniqueKeys, EntryValid;
      ghost var d, table', bits' := disk.image, directory.table[..], freeMap.Bits();
      SystemSeparate(d);
      hdr.WriteBack(disk, sector);
      ghost var d1 := disk.image;
      directory.WriteBack(directoryFile);
      ghost var d2 := disk.image;
      PersistentBitmaps.WriteBack(freeMap, freeMapFile);
      CreateFlushes(d, key, sector, hdr.View(), table', bits', d1, d2, disk.image);
      CreateKeepsInv(d, key, hdr.numBytes, sector, disk.image);
    }

    /** `Directory::Find` in a table fetched from a consistent disk: -1 means that there is no such file. */
    method FindEntry(directory: Directory, name: CString) returns (sector: int, ghost i: int)
      requires Valid() && directory.Valid() && directory.table[..] == TableOf(disk.image)
      ensures IsIndexOf(TableOf(disk.image), NameKey(name), i)
      ensures sector == -1 <==> i == -1
      ensures i != -1 ==> 0 <= sector < NUM_SECTORS && sector == TableOf(disk.image)[i].sector
    {
      hide Contents, DecodeHeader, BytesTable, Key;
      sector := directory.Find(name);
      i :| IsIndexOf(TableOf(disk.image), NameKey(name), i)
        && sector == if i == -1 then -1 else TableOf(disk.image)[i].sector;
      if i != -1 {
        assert EntryValid(disk.image, TableOf(disk.image)[i]);
      }
    }

    method Remove(name: CString) returns (success: bool)
      requires Valid()
      modifies disk
      ensures Valid()
      ensures Step(old(disk.image), Op.Remove(name, success), disk.image)
    {
      hide Contents, DecodeHeader, Header.Blocks, BytesTable, BitsOfBytes, Removed, Owned, Key, UniqueKeys, InFile;
      ghost var d := disk.image;
      var directory := LoadDirectory();
      var sector, i := FindEntry(directory, name);
      if sector == -1 {
        return false;
      }
      var freeMap := FreeSectors(sector, i);
      var removed := directory.Remove(name);
      assert directory.table[..] == TableOf(d)[i := TableOf(d)[i].(inUse := false)];
      FlushRemoved(directory, freeMap, i);
      return true;
    }

    /** Fetches the file's header and the bitmap, and clears the data blocks and the header block. */
    method FreeSectors(sector: int, ghost i: int) returns (freeMap: Bitmap)
      requires Valid() && 0 <= i < NUM_DIR_ENTRIES && TableOf(disk.image)[i].inUse && sector == TableOf(disk.image)[i].sector
      ensures freeMap.Valid() && freeMap.numBits == NUM_SECTORS && fresh(freeMap) && fresh(freeMap.words)
      ensures EntryValid(disk.image, TableOf(disk.image)[i])
      ensures forall s :: 0 <= s < NUM_SECTORS ==>
                freeMap.Bits()[s] == (Bits(disk.image)[s] && !InFile(disk.image, TableOf(disk.image)[i], s))
    {
      hide Contents, DecodeHeader, Header.Blocks, Header.NoDuplicates, BytesTable, BitsOfBytes, Owned, Key, UniqueKeys;
      ghost var d := disk.image;
      assert EntryValid(d, TableOf(d)[i]);
      SystemSeparate(d);
      FileSeparate(d, i);
      var fileHdr := new FileHeader();
      fileHdr.FetchFrom(disk, sector);
      freeMap := PersistentBitmaps.FromFile(freeMapFile);
      assert forall s :: s in fileHdr.View().Blocks() ==> InFile(d, TableOf(d)[i], s);
      fileHdr.Deallocate(freeMap);
      freeMap.Clear(sector);
    }

    method FlushRemoved(directory: Directory, freeMap: Bitmap, ghost i: int)
      requires Valid() && directory.Valid() && freeMap.Valid() && freeMap.numBits == NUM_SECTORS
      requires 0 <= i < NUM_DIR_ENTRIES && TableOf(disk.image)[i].inUse && EntryValid(disk.image, TableOf(disk.image)[i])
      requires forall s :: 0 <= s < NUM_SECTORS ==>
                 freeMap.Bits()[s] == (Bits(disk.image)[s] && !InFile(disk.image, TableOf(disk.image)[i], s))
      requires directory.table[..] == TableOf(disk.image)[i := TableOf(disk.image)[i].(inUse := false)]
      modifies disk
      ensures Valid() && Removed(old(disk.image), i, disk.image)
    {
      hide Contents, DecodeHeader, Header.Blocks, Header.NoDuplicates, BytesTable, BitsOfBytes, Owned, Key, UniqueKeys;
      ghost var d, bits' := disk.image, freeMap.Bits();
      SystemSeparate(d);
      PersistentBitmaps.WriteBack(freeMap, freeMapFile);
      ghost var d1 := disk.image;
      directory.WriteBack(directoryFile);
      RemoveFlushes(d, i, bits', d1, disk.image);
      RemoveKeepsInv(d, i, disk.image);
    }
  }
}
