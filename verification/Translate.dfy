/** Address translation in the simulated machine (machine/translate.cc), by page table or TLB,
    and the virtual memory that it makes of the physical one. */
module Translation {
  import opened Common
  import opened Words
  import opened Bytes

  const PAGE_SIZE := 128
  const NUM_PHYS_PAGES := 128
  const MEMORY_SIZE := NUM_PHYS_PAGES * PAGE_SIZE
  const TLB_SIZE := 4

  datatype ExceptionType = PageFaultException | ReadOnlyException | BusErrorException | AddressErrorException

  datatype Entry = Entry(virtualPage: int32, physicalPage: int32, valid: bool, readOnly: bool, use: bool, dirty: bool)

  /** Which of the two the machine has; it never has both. */
  datatype Mapping = PageTable | Tlb

  datatype Outcome = Failed(e: ExceptionType) | Found(index: nat, physAddr: nat)

  predicate IsSize(size: int) { size == 1 || size == 2 || size == 4 }

  predicate Misaligned(addr: word, size: int) {
    (size == 4 && addr % 4 != 0) || (size == 2 && addr % 2 != 0)
  }

  /** The first valid TLB entry for a page. */
  function FindTlb(t: seq<Entry>, vpn: nat): (i: nat)
    ensures i <= |t|
    ensures forall j :: 0 <= j < i ==> !(t[j].valid && t[j].virtualPage == vpn)
    ensures i < |t| ==> t[i].valid && t[i].virtualPage == vpn
  {
    if t == [] || (t[0].valid && t[0].virtualPage == vpn) then 0 else 1 + FindTlb(t[1..], vpn)
  }

  /** The entry that translates a page. */
  function Lookup(m: Mapping, t: seq<Entry>, vpn: nat): (o: Outcome)
    ensures o.Found? ==> o.index < |t| && t[o.index].valid
  {
    match m
    case PageTable =>
      if vpn >= |t| then Failed(AddressErrorException)
      else if !t[vpn].valid then Failed(PageFaultException)
      else Found(vpn, 0)
    case Tlb =>
      var i := FindTlb(t, vpn);
      if i == |t| then Failed(PageFaultException) else Found(i, 0)
  }

  function Translate(m: Mapping, t: seq<Entry>, addr: word, size: int, writing: bool): Outcome {
    if Misaligned(addr, size) then Failed(AddressErrorException)
    else
      var o := Lookup(m, t, addr / PAGE_SIZE);
      if o.Failed? then o
      else if t[o.index].readOnly && writing then Failed(ReadOnlyException)
      else if AsWord(t[o.index].physicalPage) >= NUM_PHYS_PAGES then Failed(BusErrorException)
      else Found(o.index, t[o.index].physicalPage * PAGE_SIZE + addr % PAGE_SIZE)
  }

  lemma LookupInTable(t: seq<Entry>, vpn: nat)
    ensures Lookup(PageTable, t, vpn) == if vpn >= |t| then Failed(AddressErrorException)
                                         else if !t[vpn].valid then Failed(PageFaultException) else Found(vpn, 0)
  {
  }

  lemma LookupInTlb(t: seq<Entry>, vpn: nat, i: nat)
    requires i <= |t| && forall j :: 0 <= j < i ==> !(t[j].valid && t[j].virtualPage == vpn)
    requires i < |t| ==> t[i].valid && t[i].virtualPage == vpn
    ensures Lookup(Tlb, t, vpn) == if i == |t| then Failed(PageFaultException) else Found(i, 0)
  {
    hide FindTlb;
  }

  /** The outcome of a translation, from that of the lookup. */
  lemma TranslateMeans(m: Mapping, t: seq<Entry>, addr: word, size: int, writing: bool)
    ensures Misaligned(addr, size) ==> Translate(m, t, addr, size, writing) == Failed(AddressErrorException)
    ensures var o := Lookup(m, t, addr / PAGE_SIZE);
            !Misaligned(addr, size) ==>
              && (o.Failed? ==> Translate(m, t, addr, size, writing) == o)
              && (o.Found? ==>
                    && o.index < |t|
                    && var e := t[o.index];
                       Translate(m, t, addr, size, writing)
                       == if e.readOnly && writing then Failed(ReadOnlyException)
                          else if AsWord(e.physicalPage) >= NUM_PHYS_PAGES then Failed(BusErrorException)
                          else Found(o.index, e.physicalPage * PAGE_SIZE + addr % PAGE_SIZE))
  {
    hide Lookup, Misaligned;
    LookupIndex(m, t, addr / PAGE_SIZE);
  }

  lemma FrameNumber(x: int32)
    requires AsWord(x) < NUM_PHYS_PAGES
    ensures AsWord(x) == x
  {
  }

  lemma LookupIndex(m: Mapping, t: seq<Entry>, vpn: nat)
    ensures Lookup(m, t, vpn).Found? ==> Lookup(m, t, vpn).index < |t|
  {
  }

  function Touched(t: seq<Entry>, i: nat, writing: bool): (r: seq<Entry>)
    requires i < |t|
    ensures |r| == |t|
  {
    t[i := t[i].(use := true, dirty := t[i].dirty || writing)]
  }

  // ---------- The virtual memory ----------

  /** The frame of a virtual page, if it is mapped. */
  function Frame(m: Mapping, t: seq<Entry>, vpn: nat): (f: Option<nat>)
    ensures f.Some? ==> f.value < NUM_PHYS_PAGES
  {
    var o := Lookup(m, t, vpn);
    if o.Found? && 0 <= t[o.index].physicalPage < NUM_PHYS_PAGES then Some(t[o.index].physicalPage) else None
  }

  /** Where a virtual byte lives, if it is mapped. */
  function Physical(m: Mapping, t: seq<Entry>, va: nat): (p: Option<nat>)
    ensures p.Some? ==> p.value < MEMORY_SIZE
  {
    match Frame(m, t, va / PAGE_SIZE)
    case None => None
    case Some(f) => Some(f * PAGE_SIZE + va % PAGE_SIZE)
  }

  /** No two mapped pages share a frame. */
  ghost predicate DistinctFrames(m: Mapping, t: seq<Entry>) {
    forall v: nat, w: nat :: Frame(m, t, v).Some? && Frame(m, t, v) == Frame(m, t, w) ==> v == w
  }

  function ByteAt(m: Mapping, t: seq<Entry>, memory: seq<byte>, va: nat): Option<byte>
    requires |memory| == MEMORY_SIZE
  {
    match Physical(m, t, va)
    case None => None
    case Some(p) => Some(memory[p])
  }

  /** Distinct virtual bytes never alias. */
  lemma NoAlias(m: Mapping, t: seq<Entry>, v: nat, w: nat)
    requires DistinctFrames(m, t) && Physical(m, t, v).Some? && Physical(m, t, v) == Physical(m, t, w)
    ensures v == w
  {
    hide Frame;
    var f, g := Frame(m, t, v / PAGE_SIZE).value, Frame(m, t, w / PAGE_SIZE).value;
    assert f * PAGE_SIZE + v % PAGE_SIZE == g * PAGE_SIZE + w % PAGE_SIZE;
    assert f == g;
  }

  lemma PageSplit(q: nat, r: nat)
    requires r < PAGE_SIZE
    ensures (PAGE_SIZE * q + r) / PAGE_SIZE == q && (PAGE_SIZE * q + r) % PAGE_SIZE == r
  {
  }

  lemma Fits4(q: nat, r: nat, w: nat)
    requires r < PAGE_SIZE && PAGE_SIZE * q + r == 4 * w
    ensures r + 4 <= PAGE_SIZE
  {
    assert r == 4 * (w - 32 * q);
  }

  lemma Fits2(q: nat, r: nat, w: nat)
    requires r < PAGE_SIZE && PAGE_SIZE * q + r == 2 * w
    ensures r + 2 <= PAGE_SIZE
  {
    assert r == 2 * (w - 64 * q);
  }

  lemma SamePage(addr: word, size: int, k: nat)
    requires IsSize(size) && k < size && !Misaligned(addr, size)
    ensures (addr + k) / PAGE_SIZE == addr / PAGE_SIZE && (addr + k) % PAGE_SIZE == addr % PAGE_SIZE + k
    ensures addr % PAGE_SIZE + size <= PAGE_SIZE
  {
    var q, r := addr / PAGE_SIZE, addr % PAGE_SIZE;
    assert addr == PAGE_SIZE * q + r;
    if size == 4 {
      Fits4(q, r, addr / 4);
    } else if size == 2 {
      Fits2(q, r, addr / 2);
    }
    PageSplit(q, r + k);
  }

  /** An access that translates stays within its page and within the memory. */
  lemma TranslateIsPhysical(m: Mapping, t: seq<Entry>, addr: word, size: int, writing: bool, k: nat)
    requires IsSize(size) && k < size && Translate(m, t, addr, size, writing).Found?
    ensures var p := Translate(m, t, addr, size, writing).physAddr;
            p + size <= MEMORY_SIZE && Physical(m, t, addr + k) == Some(p + k)
  {
    hide Lookup;
    SamePage(addr, size, k);
  }

  /** When an access translates. */
  lemma TranslateFoundIff(m: Mapping, t: seq<Entry>, addr: word, size: int, writing: bool)
    requires IsSize(size)
    ensures Translate(m, t, addr, size, writing).Found? <==>
              && addr % size == 0 && Physical(m, t, addr).Some?
              && !(writing && t[Lookup(m, t, addr / PAGE_SIZE).index].readOnly)
  {
  }

  /** Entry `i` translates a page: the one at its index in the page table, the first one for it in the TLB. */
  predicate Maps(m: Mapping, t: seq<Entry>, vpn: nat, i: nat) {
    && i < |t| && t[i].valid
    && match m
       case PageTable => i == vpn
       case Tlb => t[i].virtualPage == vpn && forall j :: 0 <= j < i ==> !(t[j].valid && t[j].virtualPage == vpn)
  }

  /** What every access gives, in the order in which faults are looked for. */
  lemma Outcomes(m: Mapping, t: seq<Entry>, addr: word, size: int, writing: bool, i: nat)
    requires IsSize(size)
    ensures var o := Translate(m, t, addr, size, writing);
            var vpn := addr / PAGE_SIZE;
            && (addr % size != 0 || (m.PageTable? && vpn >= |t|) <==> o == Failed(AddressErrorException))
            && (o == Failed(PageFaultException) <==>
                  addr % size == 0 && !(m.PageTable? && vpn >= |t|) && forall j: nat :: !Maps(m, t, vpn, j))
            && (addr % size == 0 && Maps(m, t, vpn, i) ==>
                  o == if t[i].readOnly && writing then Failed(ReadOnlyException)
                       else if !(0 <= t[i].physicalPage < 128) then Failed(BusErrorException)
                       else Found(i, 128 * t[i].physicalPage + addr % 128))
  {
    if m.Tlb? {
      var k := FindTlb(t, addr / PAGE_SIZE);
      assert k < |t| ==> Maps(m, t, addr / PAGE_SIZE, k);
    } else {
      assert addr / PAGE_SIZE < |t| && t[addr / PAGE_SIZE].valid ==> Maps(m, t, addr / PAGE_SIZE, addr / PAGE_SIZE);
    }
  }

  /** The use and dirty bits do not matter to translation. */
  lemma {:induction false} TouchedFindTlb(t: seq<Entry>, i: nat, writing: bool, vpn: nat)
    requires i < |t|
    ensures FindTlb(Touched(t, i, writing), vpn) == FindTlb(t, vpn)
  {
    var r := Touched(t, i, writing);
    if r[0].valid && r[0].virtualPage == vpn {
    } else if i == 0 {
      assert r[1..] == t[1..];
    } else {
      assert r[1..] == Touched(t[1..], i - 1, writing);
      TouchedFindTlb(t[1..], i - 1, writing, vpn);
    }
  }

  lemma TouchedLookup(m: Mapping, t: seq<Entry>, i: nat, writing: bool, vpn: nat)
    requires i < |t|
    ensures Lookup(m, Touched(t, i, writing), vpn) == Lookup(m, t, vpn)
  {
    TouchedFindTlb(t, i, writing, vpn);
  }

  lemma TouchedTranslate(m: Mapping, t: seq<Entry>, i: nat, touched: bool, addr: word, size: int, writing: bool)
    requires i < |t|
    ensures Translate(m, Touched(t, i, touched), addr, size, writing) == Translate(m, t, addr, size, writing)
  {
    hide Lookup;
    TouchedLookup(m, t, i, touched, addr / PAGE_SIZE);
  }

  lemma TouchedFrame(m: Mapping, t: seq<Entry>, i: nat, writing: bool, vpn: nat)
    requires i < |t|
    ensures Frame(m, Touched(t, i, writing), vpn) == Frame(m, t, vpn)
  {
    hide Lookup;
    TouchedLookup(m, t, i, writing, vpn);
  }

  lemma TouchedPhysical(m: Mapping, t: seq<Entry>, i: nat, writing: bool, va: nat)
    requires i < |t|
    ensures Physical(m, Touched(t, i, writing), va) == Physical(m, t, va)
  {
    hide Frame;
    TouchedFrame(m, t, i, writing, va / PAGE_SIZE);
  }

  lemma TouchedDistinct(m: Mapping, t: seq<Entry>, i: nat, writing: bool)
    requires i < |t| && DistinctFrames(m, t)
    ensures DistinctFrames(m, Touched(t, i, writing))
  {
    hide Frame;
    forall v: nat
      ensures Frame(m, Touched(t, i, writing), v) == Frame(m, t, v)
    {
      TouchedFrame(m, t, i, writing, v);
    }
  }

  /** What a write through a translation does to the virtual memory: it changes the addressed bytes only. */
  lemma WriteByteAt(m: Mapping, t: seq<Entry>, memory: seq<byte>, addr: word, bs: seq<byte>, va: nat)
    requires |memory| == MEMORY_SIZE && DistinctFrames(m, t) && IsSize(|bs|)
    requires Translate(m, t, addr, |bs|, true).Found?
    ensures var o := Translate(m, t, addr, |bs|, true);
            && o.index < |t| && o.physAddr + |bs| <= MEMORY_SIZE
            && ByteAt(m, Touched(t, o.index, true), Splice(memory, o.physAddr, bs), va)
               == if addr <= va < addr + |bs| then Some(bs[va - addr]) else ByteAt(m, t, memory, va)
  {
    hide Lookup, Touched, Physical, DistinctFrames;
    var o := Translate(m, t, addr, |bs|, true);
    TranslateIsPhysical(m, t, addr, |bs|, true, 0);
    assert o.index < |t| by {
      TranslateIndex(m, t, addr, |bs|, true);
    }
    TouchedPhysical(m, t, o.index, true, va);
    var p := Physical(m, t, va);
    if addr <= va < addr + |bs| {
      TranslateIsPhysical(m, t, addr, |bs|, true, va - addr);
    } else if p.Some? && o.physAddr <= p.value < o.physAddr + |bs| {
      TranslateIsPhysical(m, t, addr, |bs|, true, p.value - o.physAddr);
      NoAlias(m, t, va, addr + (p.value - o.physAddr));
    }
  }

  lemma TranslateIndex(m: Mapping, t: seq<Entry>, addr: word, size: int, writing: bool)
    requires Translate(m, t, addr, size, writing).Found?
    ensures Translate(m, t, addr, size, writing).index < |t|
  {
  }

  /** A read through a translation finds the addressed bytes. */
  lemma ReadByteAt(m: Mapping, t: seq<Entry>, memory: seq<byte>, addr: word, size: int, writing: bool, k: nat)
    requires |memory| == MEMORY_SIZE && IsSize(size) && k < size && Translate(m, t, addr, size, writing).Found?
    ensures var p := Translate(m, t, addr, size, writing).physAddr;
            p + size <= MEMORY_SIZE && ByteAt(m, t, memory, addr + k) == Some(memory[p + k])
  {
    hide Lookup, Translate;
    TranslateIsPhysical(m, t, addr, size, writing, k);
  }

  // ---------- TLB against page table ----------

  /** Every valid TLB entry says what the page table says. */
  ghost predicate Agrees(tlb: seq<Entry>, table: seq<Entry>) {
    forall e :: e in tlb && e.valid ==>
      && 0 <= e.virtualPage < |table| && table[e.virtualPage].valid
      && e.physicalPage == table[e.virtualPage].physicalPage && e.readOnly == table[e.virtualPage].readOnly
  }

  /** A TLB that agrees with the page table gives the page table's address or exception, or a page fault. */
  lemma TlbAgrees(tlb: seq<Entry>, table: seq<Entry>, addr: word, size: int, writing: bool)
    requires Agrees(tlb, table)
    ensures var a, b := Translate(Tlb, tlb, addr, size, writing), Translate(PageTable, table, addr, size, writing);
            || a == Failed(PageFaultException)
            || (a.Failed? && a == b)
            || (a.Found? && b.Found? && a.physAddr == b.physAddr)
  {
    var i := FindTlb(tlb, addr / PAGE_SIZE);
    if i < |tlb| {
      assert tlb[i] in tlb;
    }
  }
}
