/** The simulated MIPS machine as user programs see it: virtual memory, registers, the load delay
    (machine/translate.cc and the unaligned accesses of machine/mipssim.cc, as compiled with SIM_FIX). */
module Machines {
  import opened Common
  import opened Words
  import opened Bytes
  import opened Translation
  import opened UnalignedWords
  import opened Registers
  import opened UnalignedAccess

  class Machine {
    const mapping: Mapping
    const mainMemory: array<byte>
    const table: array<Entry>
    const registers: array<word>

    ghost predicate Valid()
      reads registers
    {
      && mainMemory.Length == MEMORY_SIZE && registers.Length == NUM_TOTAL_REGS && ValidRegs(registers[..])
      && (mapping.Tlb? ==> table.Length == TLB_SIZE)
    }

    /** The virtual memory. */
    ghost function View(va: nat): Option<byte>
      requires Valid()
      reads registers, mainMemory, table
    {
      ByteAt(mapping, table[..], mainMemory[..], va)
    }

    /** Whether the aligned word around an address can be read or written. */
    ghost predicate Accessible(va: word, writing: bool)
      reads table
    {
      Translation.Translate(mapping, table[..], va - va % 4, 4, writing).Found?
    }

    lemma SameWord(va: word, writing: bool)
      ensures Accessible(va - va % 4, writing) == Accessible(va, writing)
      ensures Accessible(va, true) ==> Accessible(va, false)
      ensures (va - va % 4) % 4 == 0
    {
      WordStart(va);
    }

    lemma Readable(va: word)
      ensures Accessible(va, true) ==> Accessible(va, false)
    {
    }

    lemma FoundForReading(addr: word, size: int)
      ensures Translation.Translate(mapping, table[..], addr, size, true).Found? ==>
                Translation.Translate(mapping, table[..], addr, size, false).Found?
    {
    }

    lemma BothReadable(p: word, q: word)
      requires Accessible(p, false) && Accessible(q, false)
      ensures BothFound(mapping, table[..], p, q, false)
    {
    }

    lemma FoundIff(addr: word, writing: bool)
      requires addr % 4 == 0
      ensures Accessible(addr, writing) == Translation.Translate(mapping, table[..], addr, 4, writing).Found?
    {
    }

    ghost predicate BothAccessible(p: word, q: word, writing: bool)
      reads table
    {
      Accessible(p, writing) && Accessible(q, writing)
    }

    constructor (m: Mapping, pages: nat)
      ensures Valid() && mapping == m && fresh(mainMemory) && fresh(table) && fresh(registers)
      ensures forall i :: 0 <= i < MEMORY_SIZE ==> mainMemory[i] == 0
      ensures forall i :: 0 <= i < NUM_TOTAL_REGS ==> registers[i] == 0
    {
      mapping := m;
      mainMemory := new byte[MEMORY_SIZE](_ => 0);
      table := new Entry[if m == Tlb then TLB_SIZE else pages](_ => Entry(0, 0, false, false, false, false));
      registers := new word[NUM_TOTAL_REGS](_ => 0);
    }

    method Translate(virtAddr: word, size: int, writing: bool) returns (o: Outcome)
      requires Valid() && IsSize(size)
      modifies table
      ensures o == Translation.Translate(mapping, old(table[..]), virtAddr, size, writing)
      ensures table[..] == if o.Found? then Touched(old(table[..]), o.index, writing) else old(table[..])
      ensures o.Found? ==> o.index < table.Length && table[o.index] == old(table[..])[o.index].(use := true, dirty := table[o.index].dirty)
                           && (table[o.index].dirty <==> writing || old(table[..])[o.index].dirty)
      ensures forall i :: 0 <= i < table.Length && !(o.Found? && i == o.index) ==> table[i] == old(table[i])
    {
      hide FindTlb, Lookup, Translation.Translate;
      ghost var t := table[..];
      TranslateMeans(mapping, t, virtAddr, size, writing);
      if (size == 4 && virtAddr % 4 != 0) || (size == 2 && virtAddr % 2 != 0) {
        return Failed(AddressErrorException);
      }
      var vpn, offset := virtAddr / PAGE_SIZE, virtAddr % PAGE_SIZE;
      var i;
      if mapping.PageTable? {
        LookupInTable(t, vpn);
        if vpn >= table.Length {
          return Failed(AddressErrorException);
        } else if !table[vpn].valid {
          return Failed(PageFaultException);
        }
        i := vpn;
      } else {
        i := 0;
        while i < TLB_SIZE && !(table[i].valid && table[i].virtualPage == vpn)
          invariant 0 <= i <= TLB_SIZE
          invariant forall j :: 0 <= j < i ==> !(table[j].valid && table[j].virtualPage == vpn)
        {
          i := i + 1;
        }
        LookupInTlb(t, vpn, i);
        if i == TLB_SIZE {
          return Failed(PageFaultException);
        }
      }
      if table[i].readOnly && writing {
        return Failed(ReadOnlyException);
      }
      var pageFrame := AsWord(table[i].physicalPage);
      if pageFrame >= NUM_PHYS_PAGES {
        return Failed(BusErrorException);
      }
      FrameNumber(t[i].physicalPage);
      o := Found(i, pageFrame * PAGE_SIZE + offset);
      assert o == Translation.Translate(mapping, t, virtAddr, size, writing);
      table[i] := table[i].(use := true);
      if writing {
        table[i] := table[i].(dirty := true);
      }
      assert table[..] == Touched(t, i, writing);
    }

    method DelayedLoad(nextReg: word, nextValue: word)
      requires Valid() && IsReg(nextReg)
      modifies registers
      ensures Valid() && registers[..] == Delayed(old(registers[..]), nextReg, nextValue)
      ensures registers[LOAD_REG] == nextReg && registers[LOAD_VALUE_REG] == nextValue && registers[0] == 0
      ensures var r := old(registers[LOAD_REG]);
              && (r != 0 ==> registers[r] == old(registers[LOAD_VALUE_REG]))
              && forall i :: 0 < i < NUM_TOTAL_REGS && i != r && i != LOAD_REG && i != LOAD_VALUE_REG ==>
                   registers[i] == old(registers[i])
    {
      registers[registers[LOAD_REG]] := registers[LOAD_VALUE_REG];
      registers[LOAD_REG] := nextReg;
      registers[LOAD_VALUE_REG] := nextValue;
      registers[0] := 0;
    }

    /** Without the kernel's handler. */
    method RaiseException(badVAddr: word)
      requires Valid()
      modifies registers
      ensures Valid() && registers[..] == Raised(old(registers[..]), badVAddr)
      ensures registers[BAD_VADDR_REG] == badVAddr && registers[LOAD_REG] == 0 && registers[LOAD_VALUE_REG] == 0
      ensures var r := old(registers[LOAD_REG]);
              && (r != 0 ==> registers[r] == old(registers[LOAD_VALUE_REG]))
              && forall i :: 0 <= i < LOAD_REG && (i == 0 || i != r) ==> registers[i] == old(registers[i])
    {
      registers[BAD_VADDR_REG] := badVAddr;
      DelayedLoad(0, 0);
    }

    method ReadMem(addr: word, size: int) returns (ok: bool, value: word)
      requires Valid() && IsSize(size)
      modifies table, registers
      ensures Valid()
      ensures var o := Translation.Translate(mapping, old(table[..]), addr, size, false);
              && ok == o.Found?
              && table[..] == (if ok then Touched(old(table[..]), o.index, false) else old(table[..]))
              && registers[..] == (if ok then old(registers[..]) else Raised(old(registers[..]), addr))
              && (ok ==> o.physAddr + size <= MEMORY_SIZE
                         && WordBytes(value)[..size] == mainMemory[o.physAddr..o.physAddr + size] && Extended(value, size))
    {
      hide LoadValue, Delayed, WordBytes, Extended;
      var o := Translate(addr, size, false);
      if o.Failed? {
        RaiseException(addr);
        return false, 0;
      }
      TranslateIsPhysical(mapping, old(table[..]), addr, size, false, 0);
      value := LoadValue(mainMemory[o.physAddr..o.physAddr + size]);
      LoadedBytes(mainMemory[o.physAddr..o.physAddr + size]);
      ok := true;
    }

    /** `ReadMem` as seen in the virtual memory. */
    method ReadVirtual(addr: word, size: int) returns (ok: bool, value: word)
      requires Valid() && IsSize(size)
      modifies table, registers
      ensures Valid() && forall va: nat :: View(va) == old(View(va))
      ensures registers[..] == if ok then old(registers[..]) else Raised(old(registers[..]), addr)
      ensures ok ==> forall k: nat :: k < size ==> View(addr + k) == Some(WordBytes(value)[k])
      ensures ok ==> Extended(value, size)
      ensures DistinctFrames(mapping, old(table[..])) ==> DistinctFrames(mapping, table[..])
      ensures ok == old(Translation.Translate(mapping, table[..], addr, size, false)).Found?
      ensures forall va: word, w: bool :: Accessible(va, w) == old(Accessible(va, w))
    {
      hide Delayed, Translation.Translate, LoadValue, ByteAt, Touched, DistinctFrames, WordBytes, Extended;
      ghost var t := table[..];
      ok, value := ReadMem(addr, size);
      if ok {
        ghost var o := Translation.Translate(mapping, t, addr, size, false);
        TranslateIndex(mapping, t, addr, size, false);
        forall va: nat
          ensures ByteAt(mapping, table[..], mainMemory[..], va) == ByteAt(mapping, t, mainMemory[..], va)
        {
          ReadLeavesView(mapping, t, mainMemory[..], addr, size, va);
        }
        ghost var bs := mainMemory[o.physAddr..o.physAddr + size];
        forall k: nat | k < size
          ensures View(addr + k) == Some(WordBytes(value)[k])
        {
          ReadByteAt(mapping, t, mainMemory[..], addr, size, false, k);
          assert WordBytes(value)[..size][k] == bs[k];
        }
        if DistinctFrames(mapping, t) {
          TouchedDistinct(mapping, t, o.index, false);
        }
        forall va: word, w: bool
          ensures Accessible(va, w) == old(Accessible(va, w))
        {
          TouchedTranslate(mapping, t, o.index, false, va - va % 4, 4, w);
        }
      }
    }

    /** The same for an aligned word. */
    method ReadWord(addr: word) returns (ok: bool, value: word)
      requires Valid() && addr % 4 == 0
      modifies table, registers
      ensures Valid() && forall va: nat :: View(va) == old(View(va))
      ensures registers[..] == if ok then old(registers[..]) else Raised(old(registers[..]), addr)
      ensures ok ==> Holds(mapping, table[..], mainMemory[..], addr, value, 0, 4)
      ensures ok ==> forall va: nat :: addr <= va < addr + 4 ==> View(va) == Some(WordBytes(value)[va - addr])
      ensures DistinctFrames(mapping, old(table[..])) ==> DistinctFrames(mapping, table[..])
      ensures ok == old(Accessible(addr, false)) && forall va: word, w: bool :: Accessible(va, w) == old(Accessible(va, w))
    {
      hide Delayed, Translation.Translate, ByteAt, DistinctFrames, WordBytes, Extended;
      ok, value := ReadVirtual(addr, 4);
      if ok {
        forall va: nat | addr <= va < addr + 4
          ensures View(va) == Some(WordBytes(value)[va - addr])
        {
          assert View(addr + (va - addr)) == Some(WordBytes(value)[va - addr]);
        }
      }
    }

    method WriteMem(addr: word, size: int, value: word) returns (ok: bool)
      requires Valid() && IsSize(size)
      modifies table, registers, mainMemory
      ensures Valid()
      ensures var o := Translation.Translate(mapping, old(table[..]), addr, size, true);
              && ok == o.Found?
              && table[..] == (if ok then Touched(old(table[..]), o.index, true) else old(table[..]))
              && registers[..] == (if ok then old(registers[..]) else Raised(old(registers[..]), addr))
              && (ok ==> o.physAddr + size <= MEMORY_SIZE)
              && mainMemory[..] == if ok
                                   then Splice(old(mainMemory[..]), o.physAddr, WordBytes(value)[..size])
                                   else old(mainMemory[..])
    {
      hide Delayed, WordBytes, Translation.Translate;
      var o := Translate(addr, size, true);
      if o.Failed? {
        RaiseException(addr);
        return false;
      }
      TranslateIsPhysical(mapping, old(table[..]), addr, size, true, 0);
      forall i | 0 <= i < size {
        mainMemory[o.physAddr + i] := WordBytes(value)[i];
      }
      assert mainMemory[..] == Splice(old(mainMemory[..]), o.physAddr, WordBytes(value)[..size]);
      ok := true;
    }

    /** LWR: the bytes from the address on, up to the end of its word. */
    method Lwr(rs: nat, rt: nat, extra: int32) returns (ok: bool)
      requires Valid() && IsReg(rs) && IsReg(rt)
      modifies table, registers
      ensures Valid() && forall va: nat :: View(va) == old(View(va))
      ensures ok == old(Accessible(Address(registers[..], rs, extra), false))
      ensures forall va: word, w: bool :: Accessible(va, w) == old(Accessible(va, w))
      ensures var tmp := Address(old(registers[..]), rs, extra);
              if ok then
                var v := registers[LOAD_VALUE_REG];
                && registers[..] == Delayed(old(registers[..]), rt, v)
                && Holds(mapping, table[..], mainMemory[..], tmp, v, 0, 4 - tmp % 4)
                && SameBytes(v, Forwarded(old(registers[..]), rt), 4 - tmp % 4, 4)
              else registers[..] == Raised(old(registers[..]), tmp - tmp % 4)
    {
      hide Accessible;
      hide LwrWord, Touched, Translation.Translate, LoadValue, Holds, SameBytes, ByteAt;
      var tmp := Address(registers[..], rs, extra);
      var value;
      SameWord(tmp, false);
      ok, value := ReadWord(tmp - tmp % 4);
      if !ok {
        return;
      }
      var reg := if registers[LOAD_REG] == rt then registers[LOAD_VALUE_REG] else registers[rt];
      LwrLoads(mapping, table[..], mainMemory[..], tmp, value, reg);
      DelayedLoad(rt, LwrWord(reg, value, tmp % 4));
    }

    /** LWL: the bytes up to the address, from the start of its word. */
    method Lwl(rs: nat, rt: nat, extra: int32) returns (ok: bool)
      requires Valid() && IsReg(rs) && IsReg(rt)
      modifies table, registers
      ensures Valid() && forall va: nat :: View(va) == old(View(va))
      ensures ok == old(Accessible(Address(registers[..], rs, extra), false))
      ensures forall va: word, w: bool :: Accessible(va, w) == old(Accessible(va, w))
      ensures var tmp := Address(old(registers[..]), rs, extra);
              if ok then
                var v := registers[LOAD_VALUE_REG];
                && registers[..] == Delayed(old(registers[..]), rt, v)
                && Holds(mapping, table[..], mainMemory[..], tmp - 3, v, 3 - tmp % 4, 4)
                && SameBytes(v, Forwarded(old(registers[..]), rt), 0, 3 - tmp % 4)
              else registers[..] == Raised(old(registers[..]), tmp - tmp % 4)
    {
      hide Accessible;
      hide LwlWord, Touched, Translation.Translate, LoadValue, Holds, SameBytes, ByteAt;
      var tmp := Address(registers[..], rs, extra);
      var value;
      SameWord(tmp, false);
      ok, value := ReadWord(tmp - tmp % 4);
      if !ok {
        return;
      }
      var reg := if registers[LOAD_REG] == rt then registers[LOAD_VALUE_REG] else registers[rt];
      LwlLoads(mapping, table[..], mainMemory[..], tmp, value, reg);
      DelayedLoad(rt, LwlWord(reg, value, tmp % 4));
    }

    /** `WriteMem` as seen in the virtual memory. */
    method WriteVirtual(addr: word, size: int, value: word) returns (ok: bool)
      requires Valid() && DistinctFrames(mapping, table[..]) && IsSize(size)
      modifies table, registers, mainMemory
      ensures Valid() && DistinctFrames(mapping, table[..])
      ensures registers[..] == if ok then old(registers[..]) else Raised(old(registers[..]), addr)
      ensures forall va: nat ::
                View(va) == if ok && addr <= va < addr + size then Some(WordBytes(value)[va - addr]) else old(View(va))
      ensures ok == old(Translation.Translate(mapping, table[..], addr, size, true)).Found?
      ensures ok && Translation.Translate(mapping, old(table[..]), addr, size, false).Found? ==>
                Translation.Translate(mapping, table[..], addr, size, false).Found?
      ensures forall va: word, w: bool :: Accessible(va, w) == old(Accessible(va, w))
    {
      hide Delayed, Translation.Translate, ByteAt, Touched, DistinctFrames, WordBytes;
      ghost var t, memory := table[..], mainMemory[..];
      ok := WriteMem(addr, size, value);
      if ok {
        ghost var o := Translation.Translate(mapping, t, addr, size, true);
        ghost var bs := WordBytes(value)[..size];
        TranslateIndex(mapping, t, addr, size, true);
        TouchedDistinct(mapping, t, o.index, true);
        forall va: nat
          ensures ByteAt(mapping, table[..], mainMemory[..], va)
               == if addr <= va < addr + size then Some(WordBytes(value)[va - addr]) else ByteAt(mapping, t, memory, va)
        {
          WriteByteAt(mapping, t, memory, addr, bs, va);
        }
        TouchedTranslate(mapping, t, o.index, true, addr, size, false);
        forall va: word, w: bool
          ensures Accessible(va, w) == old(Accessible(va, w))
        {
          TouchedTranslate(mapping, t, o.index, true, va - va % 4, 4, w);
        }
      }
    }

    /** A read of the same size finds what was written: its low bytes, the sign copied above a single byte. */
    method WriteThenRead(addr: word, size: int, value: word) returns (ok: bool, found: word)
      requires Valid() && DistinctFrames(mapping, table[..]) && IsSize(size)
      modifies table, registers, mainMemory
      ensures Valid() && ok == old(Translation.Translate(mapping, table[..], addr, size, true)).Found?
      ensures ok ==> WordBytes(found)[..size] == WordBytes(value)[..size] && Extended(found, size)
      ensures ok && size == 4 ==> found == value
    {
      hide ByteAt, DistinctFrames, WordBytes, Extended, Translation.Translate;
      found := 0;
      FoundForReading(addr, size);
      ok := WriteVirtual(addr, size, value);
      if ok {
        var readable;
        readable, found := ReadVirtual(addr, size);
        assert readable;
        forall k: nat | k < size
          ensures WordBytes(found)[k] == WordBytes(value)[k]
        {
          assert View(addr + k) == Some(WordBytes(found)[k]);
        }
        if size == 4 {
          EqualBytes(found, value);
        }
      }
    }

    /** SWL: the last bytes of the register, up to the address, from the start of its word. */
    method Swl(rs: nat, rt: nat, extra: int32) returns (ok: bool)
      requires Valid() && IsReg(rs) && IsReg(rt) && DistinctFrames(mapping, table[..])
      modifies table, registers, mainMemory
      ensures Valid() && DistinctFrames(mapping, table[..])
      ensures ok == old(Accessible(Address(registers[..], rs, extra), true))
      ensures forall va: word, w: bool :: Accessible(va, w) == old(Accessible(va, w))
      ensures var tmp := Address(old(registers[..]), rs, extra);
              && registers[..] == (if ok then Delayed(old(registers[..]), 0, 0)
                                   else Raised(old(registers[..]), tmp - tmp % 4))
              && forall va: nat ::
                   View(va) == if ok && InBack(va, tmp)
                               then Some(WordBytes(old(registers[rt]))[va - tmp + 3]) else old(View(va))
    {
      hide Accessible;
      hide Delayed, SwlWord, Holds, ByteAt, DistinctFrames, WordBytes;
      var tmp := Address(registers[..], rs, extra);
      var at := tmp % 4;
      var value;
      SameWord(tmp, false);
      SameWord(tmp, true);
      ok, value := ReadWord(tmp - at);
      if !ok {
        return;
      }
      ghost var reg, was := registers[rt], value;
      value := SwlWord(value, registers[rt], at);
      FoundIff(tmp - at, true);
      ok := WriteVirtual(tmp - at, 4, value);
      if !ok {
        return;
      }
      forall va: nat
        ensures ByteAt(mapping, table[..], mainMemory[..], va)
             == if tmp - at <= va <= tmp then Some(WordBytes(reg)[va - tmp + 3]) else old(View(va))
      {
        if tmp - at <= va < tmp - at + 4 {
          SwlStores(was, reg, at, va - (tmp - at));
          assert View(va) == Some(WordBytes(value)[va - (tmp - at)]);
          assert old(View(va)) == Some(WordBytes(was)[va - (tmp - at)]);
        } else {
          assert View(va) == old(View(va));
        }
      }
      DelayedLoad(0, 0);
      assert forall va: nat :: View(va) == ByteAt(mapping, table[..], mainMemory[..], va);
    }

    /** SWR: the first bytes of the register, from the address on, up to the end of its word. */
    method Swr(rs: nat, rt: nat, extra: int32) returns (ok: bool)
      requires Valid() && IsReg(rs) && IsReg(rt) && DistinctFrames(mapping, table[..])
      modifies table, registers, mainMemory
      ensures Valid() && DistinctFrames(mapping, table[..])
      ensures ok == old(Accessible(Address(registers[..], rs, extra), true))
      ensures forall va: word, w: bool :: Accessible(va, w) == old(Accessible(va, w))
      ensures var tmp := Address(old(registers[..]), rs, extra);
              && registers[..] == (if ok then Delayed(old(registers[..]), 0, 0)
                                   else Raised(old(registers[..]), tmp - tmp % 4))
              && forall va: nat ::
                   View(va) == if ok && InFront(va, tmp)
                               then Some(WordBytes(old(registers[rt]))[va - tmp]) else old(View(va))
    {
      hide Accessible;
      hide Delayed, SwrWord, Holds, ByteAt, DistinctFrames, WordBytes;
      var tmp := Address(registers[..], rs, extra);
      var at := tmp % 4;
      var value;
      SameWord(tmp, false);
      SameWord(tmp, true);
      ok, value := ReadWord(tmp - at);
      if !ok {
        return;
      }
      ghost var reg, was := registers[rt], value;
      value := SwrWord(value, registers[rt], at);
      FoundIff(tmp - at, true);
      ok := WriteVirtual(tmp - at, 4, value);
      if !ok {
        return;
      }
      forall va: nat
        ensures ByteAt(mapping, table[..], mainMemory[..], va)
             == if tmp <= va < tmp - at + 4 then Some(WordBytes(reg)[va - tmp]) else old(View(va))
      {
        if tmp - at <= va < tmp - at + 4 {
          SwrStores(was, reg, at, va - (tmp - at));
          assert View(va) == Some(WordBytes(value)[va - (tmp - at)]);
          assert old(View(va)) == Some(WordBytes(was)[va - (tmp - at)]);
        } else {
          assert View(va) == old(View(va));
        }
      }
      DelayedLoad(0, 0);
      assert forall va: nat :: View(va) == ByteAt(mapping, table[..], mainMemory[..], va);
    }

    /** The two-instruction store of a word at any address; an interrupt in between commits pending loads. */
    method StoreUnaligned(a: Pair) returns (ok: bool)
      requires Valid() && a.Valid() && DistinctFrames(mapping, table[..])
      modifies table, registers, mainMemory
      ensures Valid() && DistinctFrames(mapping, table[..])
      ensures var p, q := FirstAddress(old(registers[..]), a), SecondStore(old(registers[..]), a).0;
              && ok == old(BothAccessible(p, q, true))
              && registers[..] == (if ok then Delayed(old(registers[..]), 0, 0)
                                   else if old(Accessible(p, true))
                                   then Raised(Delayed(old(registers[..]), 0, 0), q - q % 4)
                                   else Raised(old(registers[..]), p - p % 4))
              && forall va: nat ::
                   View(va) == if ok then StoredByte(old(registers[..]), a, va, old(View(va)))
                               else if old(Accessible(p, true)) && InFront(va, p)
                               then Some(WordBytes(old(registers[a.rt]))[va - p]) else old(View(va))
      ensures forall va: word, w: bool :: Accessible(va, w) == old(Accessible(va, w))
    {
      hide Accessible, ByteAt, DistinctFrames, WordBytes, Delayed, InBack;
      ghost var regs := registers[..];
      ok := Swr(a.rs, a.rt, a.extra);
      if !ok {
        return;
      }
      StoreRegs(regs);
      if a.interrupted {
        DelayedLoad(0, 0);
      }
      assert registers[..] == Delayed(regs, 0, 0);
      ghost var reg := registers[a.rt];
      label halfway:
      ok := Swl(a.rs, a.rt, a.extra + 3);
      if ok {
        forall va: nat
          ensures View(va) == StoredByte(regs, a, va, old(View(va)))
        {
          assert old@halfway(View(va)) == if InFront(va, FirstAddress(regs, a))
                                          then Some(WordBytes(regs[a.rt])[va - FirstAddress(regs, a)]) else old(View(va));
        }
      }
    }

    /** The first half of a load and, if one comes, the interrupt after it. */
    method LoadFront(a: Pair) returns (ok: bool)
      requires Valid() && a.Valid()
      modifies table, registers
      ensures Valid() && forall va: nat :: View(va) == old(View(va))
      ensures forall va: word, w: bool :: Accessible(va, w) == old(Accessible(va, w))
      ensures var regs, p := old(registers[..]), FirstAddress(old(registers[..]), a);
              && ok == old(Accessible(p, false))
              && registers[..] == if ok then Between(regs, a.rt, FirstWord(mapping, old(table[..]), mainMemory[..], regs, a), a.interrupted)
                                  else Raised(regs, p - p % 4)
    {
      hide Accessible, ByteAt, WordBytes, Holds, SameBytes, Delayed, Forwarded, FrontLoaded;
      ghost var regs, t0, memory := registers[..], table[..], mainMemory[..];
      ok := Lwr(a.rs, a.rt, a.extra);
      if ok {
        ghost var p, t, v := FirstAddress(regs, a), table[..], registers[LOAD_VALUE_REG];
        assert forall va: nat :: ByteAt(mapping, t, memory, va) == ByteAt(mapping, t0, memory, va) by {
          assert forall va: nat :: View(va) == ByteAt(mapping, t, memory, va);
        }
        HoldsKept(mapping, t, t0, memory, memory, p, v, 0, 4 - p % 4);
        FrontLoads(mapping, t0, memory, p, v, Forwarded(regs, a.rt));
        if a.interrupted {
          DelayedLoad(0, 0);
        }
      }
    }

    /** The second half, followed by the load delay. */
    method LoadBack(a: Pair) returns (ok: bool, ghost w: word)
      requires Valid() && a.Valid()
      modifies table, registers
      ensures Valid() && forall va: nat :: View(va) == old(View(va))
      ensures var q := Address(old(registers[..]), a.rs, a.extra + 3);
              && ok == old(Accessible(q, false))
              && (ok ==> w == BackLoaded(mapping, old(table[..]), mainMemory[..], q, Forwarded(old(registers[..]), a.rt)))
              && registers[..] == if ok then Delayed(Delayed(old(registers[..]), a.rt, w), 0, 0)
                                  else Raised(old(registers[..]), q - q % 4)
    {
      hide Accessible, ByteAt, WordBytes, Holds, SameBytes, Delayed, Forwarded, BackLoaded;
      ghost var regs, t0, memory := registers[..], table[..], mainMemory[..];
      w := 0;
      ok := Lwl(a.rs, a.rt, a.extra + 3);
      if ok {
        ghost var t := table[..];
        ghost var q: int := Address(regs, a.rs, a.extra + 3);
        w := registers[LOAD_VALUE_REG];
        assert forall va: nat :: ByteAt(mapping, t, memory, va) == ByteAt(mapping, t0, memory, va) by {
          assert forall va: nat :: View(va) == ByteAt(mapping, t, memory, va);
        }
        HoldsKept(mapping, t, t0, memory, memory, q - 3, w, 3 - q % 4, 4);
        BackLoads(mapping, t0, memory, q, w, Forwarded(regs, a.rt));
        DelayedLoad(0, 0);
      }
    }

    /** The two-instruction load of a word at any address, followed by the load delay. */
    method LoadUnaligned(a: Pair) returns (ok: bool)
      requires Valid() && a.Valid()
      modifies table, registers
      ensures Valid() && forall va: nat :: View(va) == old(View(va))
      ensures var regs, p := old(registers[..]), FirstAddress(old(registers[..]), a);
              var v := FirstWord(mapping, old(table[..]), mainMemory[..], regs, a);
              var q := SecondAddress(mapping, old(table[..]), mainMemory[..], regs, a);
              && ok == old(BothAccessible(p, q, false))
              && (ok ==> (a.rt != 0 ==> registers[a.rt] == PairWord(mapping, old(table[..]), mainMemory[..], regs, a))
                         && forall r: nat :: 0 < r < NUM_GP_REGS && r != a.rt ==> registers[r] == Forwarded(regs, r))
              && (!ok ==> registers[..] == if old(Accessible(p, false))
                                           then Raised(Between(regs, a.rt, v, a.interrupted), q - q % 4)
                                           else Raised(regs, p - p % 4))
    {
      hide Accessible, ByteAt, Delayed, Forwarded, FirstWord, Between;
      ghost var regs, t0, memory := registers[..], table[..], mainMemory[..];
      ok := LoadFront(a);
      if !ok {
        return;
      }
      ghost var t, v := table[..], FirstWord(mapping, t0, memory, regs, a);
      assert forall va: nat :: ByteAt(mapping, t, memory, va) == ByteAt(mapping, t0, memory, va) by {
        assert forall va: nat :: View(va) == ByteAt(mapping, t, memory, va);
      }
      ghost var w;
      ok, w := LoadBack(a);
      PairRegs(regs, a.rt, v, w, a.interrupted);
      BackLoadedKept(mapping, t0, t, memory, SecondAddress(mapping, t0, memory, regs, a), v);
    }

    /** What the pair of stores writes, the pair of loads reads back. */
    method StoreThenLoad(a: Pair, rd: nat) returns (ok: bool)
      requires Valid() && a.Valid() && IsReg(rd) && DistinctFrames(mapping, table[..])
      modifies table, registers, mainMemory
      ensures Valid()
      ensures var regs, p := old(registers[..]), FirstAddress(old(registers[..]), a);
              Undisturbed(regs, a, rd) ==>
                ok == old(BothAccessible(p, Wrap(p + 3), true)) && (ok ==> registers[rd] == old(registers[a.rt]))
    {
      hide ByteAt, WordBytes, DistinctFrames, Delayed, PairWord, IsWordAt, SecondAddress, FirstAddress, SecondStore,
        StoredByte, Undisturbed, Settled, Accessible, BothFound;
      ghost var regs, t, memory := registers[..], table[..], mainMemory[..];
      ghost var p: int := FirstAddress(regs, a);
      ghost var q: int := Wrap(p + 3);
      ghost var undisturbed := Undisturbed(regs, a, rd);
      if undisturbed {
        UndisturbedMeans(regs, a, rd);
        SecondStoreIff(regs, a);
      }
      ok := StoreUnaligned(a);
      if ok {
        if undisturbed {
          forall va: nat
            ensures ByteAt(mapping, table[..], mainMemory[..], va) == StoredByte(regs, a, va, ByteAt(mapping, t, memory, va))
          {
            assert View(va) == StoredByte(regs, a, va, old(View(va)));
          }
          StoredWord(mapping, t, memory, table[..], mainMemory[..], regs, a);
          Readable(p);
          Readable(q);
          BothReadable(p, q);
          WordReadBack(mapping, table[..], mainMemory[..], regs, a, rd);
        }
        ok := LoadUnaligned(a.(rt := rd));
      }
    }
  }
}
