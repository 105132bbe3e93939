/** What unaligned loads and stores do to the virtual memory of the simulated machine
    (machine/mipssim.cc, LWL, LWR, SWL and SWR as compiled with SIM_FIX), singly and in pairs. */
module UnalignedAccess {
  import opened Common
  import opened Words
  import opened Bytes
  import opened Translation
  import opened UnalignedWords
  import opened Registers

  /** What is read from one, two or four little-endian bytes; a single byte is a signed `char`. */
  function LoadValue(bs: seq<byte>): word
    requires IsSize(|bs|)
  {
    if |bs| == 1 then (if bs[0] >= 128 then TWO_32 - 256 + bs[0] as int else bs[0] as int)
    else if |bs| == 2 then bs[0] as int + 256 * bs[1] as int
    else BytesWord(bs)
  }

  lemma WordStart(va: word)
    ensures (va - va % 4) % 4 == 0
  {
    var q := va / 4;
    assert va - va % 4 == 4 * q;
  }

  lemma EqualBytes(v: word, w: word)
    ensures (forall i: nat :: i < 4 ==> WordBytes(v)[i] == WordBytes(w)[i]) ==> v == w
  {
    WordRoundTrip(v);
    WordRoundTrip(w);
    if forall i: nat :: i < 4 ==> WordBytes(v)[i] == WordBytes(w)[i] {
      assert WordBytes(v) == WordBytes(w);
    }
  }

  // ---------- Aligned words of the virtual memory ----------

  /** The bytes of `v` from number `lo` up to `hi` stand in the virtual memory, as if `v` were stored at `p`. */
  ghost predicate Holds(m: Mapping, t: seq<Entry>, memory: seq<byte>, p: int, v: word, lo: nat, hi: nat)
    requires |memory| == MEMORY_SIZE && hi <= 4 && p + lo >= 0
  {
    forall i :: lo <= i < hi ==> ByteAt(m, t, memory, p + i) == Some(WordBytes(v)[i])
  }

  predicate SameBytes(v: word, w: word, lo: nat, hi: nat)
    requires lo <= hi <= 4
  {
    WordBytes(v)[lo..hi] == WordBytes(w)[lo..hi]
  }

  /** A read leaves the virtual memory as it is. */
  lemma ReadLeavesView(m: Mapping, t: seq<Entry>, memory: seq<byte>, addr: word, size: int, va: nat)
    requires |memory| == MEMORY_SIZE && Translate(m, t, addr, size, false).Found?
    ensures var o := Translate(m, t, addr, size, false);
            o.index < |t| && ByteAt(m, Touched(t, o.index, false), memory, va) == ByteAt(m, t, memory, va)
  {
    hide Physical, Touched;
    TranslateIndex(m, t, addr, size, false);
    TouchedPhysical(m, t, Translate(m, t, addr, size, false).index, false, va);
  }

  /** Above the bytes read: nothing for a halfword, copies of the sign for a byte. */
  predicate Extended(v: word, size: int) {
    var b := WordBytes(v);
    && (size == 2 ==> b[2] == 0 && b[3] == 0)
    && (size == 1 ==> b[1] == b[2] == b[3] == if b[0] < 128 then 0 else 255)
  }

  /** What is loaded has the bytes read at its low end, and is extended from them. */
  lemma LoadedBytes(bs: seq<byte>)
    requires IsSize(|bs|)
    ensures WordBytes(LoadValue(bs))[..|bs|] == bs && Extended(LoadValue(bs), |bs|)
  {
    hide WordBytes, BytesWord;
    if |bs| == 4 {
      BytesRoundTrip(bs);
    } else if |bs| == 2 {
      BytesRoundTrip([bs[0], bs[1], 0, 0]);
      Value([bs[0], bs[1], 0, 0]);
    } else {
      var sign: byte := if bs[0] < 128 then 0 else 255;
      BytesRoundTrip([bs[0], sign, sign, sign]);
      Value([bs[0], sign, sign, sign]);
    }
  }

  lemma LoadedWord(bs: seq<byte>)
    requires |bs| == 4
    ensures WordBytes(LoadValue(bs)) == bs
  {
    LoadedBytes(bs);
  }

  /** What SWL and SWR leave of the old word. */
  lemma SwlStores(value: word, reg: word, at: nat, i: nat)
    requires at < 4 && i < 4
    ensures WordBytes(SwlWord(value, reg, at))[i] == if i <= at then WordBytes(reg)[3 - at + i] else WordBytes(value)[i]
  {
    hide WordBytes, SwlWord;
    SwlBytes(value, reg, at);
  }

  lemma SwrStores(value: word, reg: word, at: nat, i: nat)
    requires at < 4 && i < 4
    ensures WordBytes(SwrWord(value, reg, at))[i] == if i >= at then WordBytes(reg)[i - at] else WordBytes(value)[i]
  {
    hide WordBytes, SwrWord;
    SwrBytes(value, reg, at);
  }

  lemma HoldsAt(m: Mapping, t: seq<Entry>, memory: seq<byte>, p: int, v: word, lo: nat, hi: nat, i: nat)
    requires |memory| == MEMORY_SIZE && hi <= 4 && p + lo >= 0 && Holds(m, t, memory, p, v, lo, hi) && lo <= i < hi
    ensures ByteAt(m, t, memory, p + i) == Some(WordBytes(v)[i])
  {
  }

  lemma HoldsKept(m: Mapping, t: seq<Entry>, t': seq<Entry>, memory: seq<byte>, memory': seq<byte>,
                  p: int, v: word, lo: nat, hi: nat)
    requires |memory| == |memory'| == MEMORY_SIZE && hi <= 4 && p + lo >= 0 && Holds(m, t, memory, p, v, lo, hi)
    requires forall va: nat :: ByteAt(m, t', memory', va) == ByteAt(m, t, memory, va)
    ensures Holds(m, t', memory', p, v, lo, hi)
  {
    hide WordBytes, ByteAt;
  }

  /** LWR: the bytes from the address to the end of its word go to the front of the register. */
  lemma LwrLoads(m: Mapping, t: seq<Entry>, memory: seq<byte>, tmp: word, value: word, reg: word)
    requires |memory| == MEMORY_SIZE && Holds(m, t, memory, tmp - tmp % 4, value, 0, 4)
    ensures var v := LwrWord(reg, value, tmp % 4);
            Holds(m, t, memory, tmp, v, 0, 4 - tmp % 4) && SameBytes(v, reg, 4 - tmp % 4, 4)
  {
    hide WordBytes, ByteAt, LwrWord;
    var at := tmp % 4;
    LwrBytes(reg, value, at);
    forall i | 0 <= i < 4 - at
      ensures ByteAt(m, t, memory, tmp + i) == Some(WordBytes(LwrWord(reg, value, at))[i])
    {
      assert ByteAt(m, t, memory, tmp - at + (at + i)) == Some(WordBytes(value)[at + i]);
    }
  }

  /** LWL: the bytes from the start of the word to the address go to the end of the register. */
  lemma LwlLoads(m: Mapping, t: seq<Entry>, memory: seq<byte>, tmp: word, value: word, reg: word)
    requires |memory| == MEMORY_SIZE && Holds(m, t, memory, tmp - tmp % 4, value, 0, 4)
    ensures var v := LwlWord(reg, value, tmp % 4);
            Holds(m, t, memory, tmp - 3, v, 3 - tmp % 4, 4) && SameBytes(v, reg, 0, 3 - tmp % 4)
  {
    hide WordBytes, ByteAt, LwlWord;
    var at := tmp % 4;
    LwlBytes(reg, value, at);
    forall i | 3 - at <= i < 4
      ensures ByteAt(m, t, memory, tmp - 3 + i) == Some(WordBytes(LwlWord(reg, value, at))[i])
    {
      assert ByteAt(m, t, memory, tmp - at + (at - 3 + i)) == Some(WordBytes(value)[at - 3 + i]);
    }
  }

  // ---------- The pair of loads ----------

  /** A byte of the virtual memory, if it is there. */
  function At(m: Mapping, t: seq<Entry>, memory: seq<byte>, va: int): byte
    requires |memory| == MEMORY_SIZE
  {
    if va >= 0 && ByteAt(m, t, memory, va).Some? then ByteAt(m, t, memory, va).value else 0
  }

  /** Byte `i` of the register after LWR from `p`, and after LWL from `q`. */
  function FrontByte(m: Mapping, t: seq<Entry>, memory: seq<byte>, p: word, reg: word, i: nat): byte
    requires |memory| == MEMORY_SIZE && i < 4
  {
    if i < 4 - p % 4 then At(m, t, memory, p + i) else WordBytes(reg)[i]
  }

  function BackByte(m: Mapping, t: seq<Entry>, memory: seq<byte>, q: word, reg: word, i: nat): byte
    requires |memory| == MEMORY_SIZE && i < 4
  {
    if i >= 3 - q % 4 then At(m, t, memory, q - 3 + i) else WordBytes(reg)[i]
  }

  function FrontLoaded(m: Mapping, t: seq<Entry>, memory: seq<byte>, p: word, reg: word): word
    requires |memory| == MEMORY_SIZE
  {
    BytesWord([FrontByte(m, t, memory, p, reg, 0), FrontByte(m, t, memory, p, reg, 1),
               FrontByte(m, t, memory, p, reg, 2), FrontByte(m, t, memory, p, reg, 3)])
  }

  function BackLoaded(m: Mapping, t: seq<Entry>, memory: seq<byte>, q: word, reg: word): word
    requires |memory| == MEMORY_SIZE
  {
    BytesWord([BackByte(m, t, memory, q, reg, 0), BackByte(m, t, memory, q, reg, 1),
               BackByte(m, t, memory, q, reg, 2), BackByte(m, t, memory, q, reg, 3)])
  }

  /** LWR rt, extra(rs); LWL rt, extra+3(rs), with or without an interrupt in between. */
  datatype Pair = Pair(rs: nat, rt: nat, extra: int32, interrupted: bool)
  {
    predicate Valid() { IsReg(rs) && IsReg(rt) && -0x8000 <= extra <= 0x7ffc }
  }

  function FirstAddress(regs: seq<word>, a: Pair): word
    requires ValidRegs(regs) && a.Valid()
  {
    Address(regs, a.rs, a.extra)
  }

  /** What the first half of a load has for the target. */
  function FirstWord(m: Mapping, t: seq<Entry>, memory: seq<byte>, regs: seq<word>, a: Pair): word
    requires |memory| == MEMORY_SIZE && ValidRegs(regs) && a.Valid()
  {
    FrontLoaded(m, t, memory, FirstAddress(regs, a), Forwarded(regs, a.rt))
  }

  function SecondAddress(m: Mapping, t: seq<Entry>, memory: seq<byte>, regs: seq<word>, a: Pair): word
    requires |memory| == MEMORY_SIZE && ValidRegs(regs) && a.Valid()
  {
    Address(Between(regs, a.rt, FirstWord(m, t, memory, regs, a), a.interrupted), a.rs, a.extra + 3)
  }

  /** What the pair loads. */
  function PairWord(m: Mapping, t: seq<Entry>, memory: seq<byte>, regs: seq<word>, a: Pair): word
    requires |memory| == MEMORY_SIZE && ValidRegs(regs) && a.Valid()
  {
    BackLoaded(m, t, memory, SecondAddress(m, t, memory, regs, a), FirstWord(m, t, memory, regs, a))
  }

  /** `w` is the word at `p`, whatever its alignment. */
  ghost predicate IsWordAt(m: Mapping, t: seq<Entry>, memory: seq<byte>, p: word, w: word)
    requires |memory| == MEMORY_SIZE
  {
    forall i: nat :: i < 4 ==> ByteAt(m, t, memory, Wrap(p + i)) == Some(WordBytes(w)[i])
  }

  lemma FrontLoads(m: Mapping, t: seq<Entry>, memory: seq<byte>, p: word, v: word, reg: word)
    requires |memory| == MEMORY_SIZE && Holds(m, t, memory, p, v, 0, 4 - p % 4) && SameBytes(v, reg, 4 - p % 4, 4)
    ensures v == FrontLoaded(m, t, memory, p, reg)
  {
    hide WordBytes, BytesWord, ByteAt;
    forall i: nat | i < 4
      ensures WordBytes(v)[i] == FrontByte(m, t, memory, p, reg, i)
    {
      if i >= 4 - p % 4 {
        assert WordBytes(v)[4 - p % 4..4][i - (4 - p % 4)] == WordBytes(reg)[4 - p % 4..4][i - (4 - p % 4)];
      } else {
        HoldsAt(m, t, memory, p, v, 0, 4 - p % 4, i);
      }
    }
    FromBytes(v, FrontByte(m, t, memory, p, reg, 0), FrontByte(m, t, memory, p, reg, 1),
              FrontByte(m, t, memory, p, reg, 2), FrontByte(m, t, memory, p, reg, 3));
  }

  lemma BackLoads(m: Mapping, t: seq<Entry>, memory: seq<byte>, q: word, w: word, reg: word)
    requires |memory| == MEMORY_SIZE && Holds(m, t, memory, q - 3, w, 3 - q % 4, 4) && SameBytes(w, reg, 0, 3 - q % 4)
    ensures w == BackLoaded(m, t, memory, q, reg)
  {
    hide WordBytes, BytesWord, ByteAt;
    forall i: nat | i < 4
      ensures WordBytes(w)[i] == BackByte(m, t, memory, q, reg, i)
    {
      if i < 3 - q % 4 {
        assert WordBytes(w)[0..3 - q % 4][i] == WordBytes(reg)[0..3 - q % 4][i];
      } else {
        HoldsAt(m, t, memory, q - 3, w, 3 - q % 4, 4, i);
      }
    }
    FromBytes(w, BackByte(m, t, memory, q, reg, 0), BackByte(m, t, memory, q, reg, 1),
              BackByte(m, t, memory, q, reg, 2), BackByte(m, t, memory, q, reg, 3));
  }

  lemma BackLoadedKept(m: Mapping, t: seq<Entry>, t': seq<Entry>, memory: seq<byte>, q: word, reg: word)
    requires |memory| == MEMORY_SIZE
    requires forall va: nat :: ByteAt(m, t', memory, va) == ByteAt(m, t, memory, va)
    ensures BackLoaded(m, t', memory, q, reg) == BackLoaded(m, t, memory, q, reg)
  {
    hide WordBytes, BytesWord, ByteAt;
  }

  lemma FromBytes(v: word, b0: byte, b1: byte, b2: byte, b3: byte)
    requires WordBytes(v)[0] == b0 && WordBytes(v)[1] == b1 && WordBytes(v)[2] == b2 && WordBytes(v)[3] == b3
    ensures v == BytesWord([b0, b1, b2, b3])
  {
    WordRoundTrip(v);
    hide WordBytes, BytesWord;
    assert WordBytes(v) == [b0, b1, b2, b3];
  }

  lemma FrontBytes(m: Mapping, t: seq<Entry>, memory: seq<byte>, p: word, reg: word, i: nat)
    requires |memory| == MEMORY_SIZE && i < 4
    ensures WordBytes(FrontLoaded(m, t, memory, p, reg))[i] == FrontByte(m, t, memory, p, reg, i)
  {
    hide WordBytes, BytesWord, FrontByte;
    BytesRoundTrip([FrontByte(m, t, memory, p, reg, 0), FrontByte(m, t, memory, p, reg, 1),
                    FrontByte(m, t, memory, p, reg, 2), FrontByte(m, t, memory, p, reg, 3)]);
  }

  lemma BackBytes(m: Mapping, t: seq<Entry>, memory: seq<byte>, q: word, reg: word, i: nat)
    requires |memory| == MEMORY_SIZE && i < 4
    ensures WordBytes(BackLoaded(m, t, memory, q, reg))[i] == BackByte(m, t, memory, q, reg, i)
  {
    hide WordBytes, BytesWord, BackByte;
    BytesRoundTrip([BackByte(m, t, memory, q, reg, 0), BackByte(m, t, memory, q, reg, 1),
                    BackByte(m, t, memory, q, reg, 2), BackByte(m, t, memory, q, reg, 3)]);
  }

  /** An aligned word that translates has all its bytes. */
  lemma WordIsThere(m: Mapping, t: seq<Entry>, memory: seq<byte>, va: word, writing: bool, i: nat)
    requires |memory| == MEMORY_SIZE && i < 4 && Translate(m, t, va - va % 4, 4, writing).Found?
    ensures ByteAt(m, t, memory, va - va % 4 + i).Some?
  {
    hide ByteAt, Translate;
    ReadByteAt(m, t, memory, va - va % 4, 4, writing, i);
  }

  /** Both aligned words that the pair looks into translate. */
  ghost predicate BothFound(m: Mapping, t: seq<Entry>, p: word, q: word, writing: bool) {
    Translate(m, t, p - p % 4, 4, writing).Found? && Translate(m, t, q - q % 4, 4, writing).Found?
  }

  /** Before the call: the byte that the pair will load as number `i` is the one at `p` + `i`. */
  ghost predicate LoadsRightByte(m: Mapping, t: seq<Entry>, memory: seq<byte>, p: word, q: word, reg: word, i: nat)
    requires |memory| == MEMORY_SIZE && i < 4
  {
    ByteAt(m, t, memory, Wrap(p + i)) == if i >= 3 - q % 4 then ByteAt(m, t, memory, q - 3 + i)
                                         else if i < 4 - p % 4 then ByteAt(m, t, memory, p + i)
                                         else Some(WordBytes(reg)[i])
  }

  lemma LoadedByte(m: Mapping, t: seq<Entry>, memory: seq<byte>, regs: seq<word>, a: Pair, i: nat)
    requires |memory| == MEMORY_SIZE && ValidRegs(regs) && a.Valid() && i < 4
    requires BothFound(m, t, FirstAddress(regs, a), SecondAddress(m, t, memory, regs, a), false)
    ensures var p, q := FirstAddress(regs, a), SecondAddress(m, t, memory, regs, a);
            LoadsRightByte(m, t, memory, p, q, Forwarded(regs, a.rt), i)
            <==> ByteAt(m, t, memory, Wrap(p + i)) == Some(WordBytes(PairWord(m, t, memory, regs, a))[i])
  {
    hide WordBytes, ByteAt, Translate, BackLoaded, FrontLoaded, Between, Address;
    var p, q := FirstAddress(regs, a), SecondAddress(m, t, memory, regs, a);
    BackBytes(m, t, memory, q, FirstWord(m, t, memory, regs, a), i);
    FrontBytes(m, t, memory, p, Forwarded(regs, a.rt), i);
    if i >= 3 - q % 4 {
      WordIsThere(m, t, memory, q, false, i - (3 - q % 4));
      assert q - q % 4 + (i - (3 - q % 4)) == q - 3 + i;
    } else if i < 4 - p % 4 {
      WordIsThere(m, t, memory, p, false, p % 4 + i);
      assert p - p % 4 + (p % 4 + i) == p + i;
    }
  }

  /** Exactly when the pair loads the word at its address. */
  lemma LoadRightIff(m: Mapping, t: seq<Entry>, memory: seq<byte>, regs: seq<word>, a: Pair)
    requires |memory| == MEMORY_SIZE && ValidRegs(regs) && a.Valid()
    requires BothFound(m, t, FirstAddress(regs, a), SecondAddress(m, t, memory, regs, a), false)
    ensures var p, q := FirstAddress(regs, a), SecondAddress(m, t, memory, regs, a);
            IsWordAt(m, t, memory, p, PairWord(m, t, memory, regs, a))
            <==> forall i: nat :: i < 4 ==> LoadsRightByte(m, t, memory, p, q, Forwarded(regs, a.rt), i)
  {
    hide WordBytes, ByteAt, PairWord, LoadsRightByte, FirstAddress, SecondAddress, BothFound, Forwarded;
    forall i: nat | i < 4
      ensures var p, q := FirstAddress(regs, a), SecondAddress(m, t, memory, regs, a);
              LoadsRightByte(m, t, memory, p, q, Forwarded(regs, a.rt), i)
              <==> ByteAt(m, t, memory, Wrap(p + i)) == Some(WordBytes(PairWord(m, t, memory, regs, a))[i])
    {
      LoadedByte(m, t, memory, regs, a, i);
    }
  }

  /** The second instruction finds the base register as the first one did. */
  predicate SameBase(m: Mapping, t: seq<Entry>, memory: seq<byte>, regs: seq<word>, a: Pair)
    requires |memory| == MEMORY_SIZE && ValidRegs(regs) && a.Valid()
  {
    if a.rs != 0 && a.interrupted && a.rs == a.rt then FirstWord(m, t, memory, regs, a) == regs[a.rs]
    else Settled(regs, a.rs)
  }

  /** The second address is right exactly if no pending load, nor the first half itself, has changed the base. */
  lemma SecondAddressIff(m: Mapping, t: seq<Entry>, memory: seq<byte>, regs: seq<word>, a: Pair)
    requires |memory| == MEMORY_SIZE && ValidRegs(regs) && a.Valid()
    ensures SecondAddress(m, t, memory, regs, a) == Wrap(FirstAddress(regs, a) + 3) <==> SameBase(m, t, memory, regs, a)
  {
    hide FirstWord, Between;
    var v := FirstWord(m, t, memory, regs, a);
    var base := Between(regs, a.rt, v, a.interrupted)[a.rs];
    BaseBetween(regs, a.rs, a.rt, v, a.interrupted);
    NextAddress(regs[a.rs], a.extra);
    SameSum(regs[a.rs], base, a.extra + 3);
  }

  /** Then every byte is right, whatever the memory holds. */
  lemma RightBytes(m: Mapping, t: seq<Entry>, memory: seq<byte>, p: word, q: word, reg: word, i: nat)
    requires |memory| == MEMORY_SIZE && i < 4 && q == Wrap(p + 3)
    ensures LoadsRightByte(m, t, memory, p, q, reg, i)
  {
    hide WordBytes, ByteAt;
  }

  lemma SameBaseLoadsRight(m: Mapping, t: seq<Entry>, memory: seq<byte>, regs: seq<word>, a: Pair)
    requires |memory| == MEMORY_SIZE && ValidRegs(regs) && a.Valid() && SameBase(m, t, memory, regs, a)
    requires BothFound(m, t, FirstAddress(regs, a), Wrap(FirstAddress(regs, a) + 3), false)
    ensures SecondAddress(m, t, memory, regs, a) == Wrap(FirstAddress(regs, a) + 3)
    ensures IsWordAt(m, t, memory, FirstAddress(regs, a), PairWord(m, t, memory, regs, a))
  {
    hide ByteAt, PairWord, LoadsRightByte, FirstAddress, SecondAddress, BothFound, Forwarded, IsWordAt, SameBase;
    SecondAddressIff(m, t, memory, regs, a);
    LoadRightIff(m, t, memory, regs, a);
    var p := FirstAddress(regs, a);
    var q := SecondAddress(m, t, memory, regs, a);
    forall i: nat | i < 4
      ensures LoadsRightByte(m, t, memory, p, q, Forwarded(regs, a.rt), i)
    {
      RightBytes(m, t, memory, p, q, Forwarded(regs, a.rt), i);
    }
  }

  // ---------- A load that goes wrong ----------

  const ONE_PAGE := [Entry(0, 0, true, false, false, false)]

  /** The word at address 0 is 8, the one at 8 has the bytes 1, 2, 3, 4. */
  function EightAtZero(): (memory: seq<byte>)
    ensures |memory| == MEMORY_SIZE
  {
    seq(MEMORY_SIZE, i => if i == 0 then 8 else if 8 <= i < 12 then (i - 7) as byte else 0)
  }

  lemma ExampleByte(va: nat)
    requires va < PAGE_SIZE
    ensures ByteAt(PageTable, ONE_PAGE, EightAtZero(), va)
         == Some(if va == 0 then 8 else if 8 <= va < 12 then (va - 7) as byte else 0)
    ensures Translate(PageTable, ONE_PAGE, 0, 4, false).Found? && Translate(PageTable, ONE_PAGE, 8, 4, false).Found?
  {
  }

  lemma ExampleLoads(reg: word)
    ensures FrontLoaded(PageTable, ONE_PAGE, EightAtZero(), 0, reg) == 8
    ensures BackLoaded(PageTable, ONE_PAGE, EightAtZero(), 11, reg) == BytesWord([1, 2, 3, 4])
    ensures ByteAt(PageTable, ONE_PAGE, EightAtZero(), 0) == Some(8)
    ensures BothFound(PageTable, ONE_PAGE, 0, 11, false)
  {
    hide ByteAt, Translate, EightAtZero;
    ExampleByte(0);
    ExampleByte(1);
    ExampleByte(2);
    ExampleByte(3);
    ExampleByte(8);
    ExampleByte(9);
    ExampleByte(10);
    ExampleByte(11);
  }

  /** Loading the word at 0 through register 1 into register 1: an interrupt between the halves puts the 8
      into the base, and the pair ends up with the word at 8. */
  lemma BaseOverwritten()
    ensures var (t, memory, regs, a) := (ONE_PAGE, EightAtZero(), seq(NUM_TOTAL_REGS, _ => 0), Pair(1, 1, 0, true));
            && ValidRegs(regs) && a.Valid() && Settled(regs, 1)
            && FirstAddress(regs, a) == 0 && SecondAddress(PageTable, t, memory, regs, a) == 11
            && BothFound(PageTable, t, 0, 11, false)
            && PairWord(PageTable, t, memory, regs, a) == BytesWord([1, 2, 3, 4])
            && !IsWordAt(PageTable, t, memory, 0, PairWord(PageTable, t, memory, regs, a))
  {
    hide ByteAt, EightAtZero, FrontLoaded, BackLoaded, Between, WordBytes, BothFound;
    var regs: seq<word> := seq(NUM_TOTAL_REGS, _ => 0);
    ExampleLoads(0);
    ExampleLoads(8);
    BaseBetween(regs, 1, 1, 8, true);
    BytesRoundTrip([1, 2, 3, 4]);
    IsWordFirst(PageTable, ONE_PAGE, EightAtZero(), 0, BytesWord([1, 2, 3, 4]));
  }

  lemma IsWordFirst(m: Mapping, t: seq<Entry>, memory: seq<byte>, p: word, w: word)
    requires |memory| == MEMORY_SIZE
    ensures IsWordAt(m, t, memory, p, w) ==> ByteAt(m, t, memory, p) == Some(WordBytes(w)[0])
  {
    hide ByteAt, WordBytes;
    assert Wrap(p + 0) == p;
  }

  // ---------- The pair of stores ----------

  /** Whether a store half from `p` (SWR), or up to `q` (SWL), covers the byte at `va`. */
  predicate InFront(va: nat, p: word) { p <= va < p - p % 4 + 4 }

  predicate InBack(va: nat, q: word) { q - q % 4 <= va <= q }

  /** How many bytes after `p` the byte `va` comes. */
  function Offset(va: nat, p: word): int { if va >= p then va - p else va + TWO_32 - p }

  /** The address and the value of the second store: pending loads have arrived. */
  function SecondStore(regs: seq<word>, a: Pair): (r: (word, word))
    requires ValidRegs(regs) && a.Valid()
  {
    (Address(Delayed(regs, 0, 0), a.rs, a.extra + 3), Delayed(regs, 0, 0)[a.rt])
  }

  /** A byte after both stores, from the one that was there. */
  function StoredByte(regs: seq<word>, a: Pair, va: nat, was: Option<byte>): Option<byte>
    requires ValidRegs(regs) && a.Valid()
  {
    var p, q, reg := FirstAddress(regs, a), SecondStore(regs, a).0, SecondStore(regs, a).1;
    if InBack(va, q) then Some(WordBytes(reg)[va - q + 3])
    else if InFront(va, p) then Some(WordBytes(regs[a.rt])[va - p])
    else was
  }

  /** A byte after the word in the register has been stored at `p`. */
  function WantedByte(regs: seq<word>, a: Pair, va: nat, was: Option<byte>): Option<byte>
    requires ValidRegs(regs) && a.Valid()
  {
    var p := FirstAddress(regs, a);
    if 0 <= Offset(va, p) < 4 then Some(WordBytes(regs[a.rt])[Offset(va, p)]) else was
  }

  /** The second address of the stores is right exactly if no pending load changes the base. */
  lemma SecondStoreIff(regs: seq<word>, a: Pair)
    requires ValidRegs(regs) && a.Valid()
    ensures SecondStore(regs, a).0 == Wrap(FirstAddress(regs, a) + 3) <==> Settled(regs, a.rs)
  {
    StoreRegs(regs);
    NextAddress(regs[a.rs], a.extra);
    SameSum(regs[a.rs], Delayed(regs, 0, 0)[a.rs], a.extra + 3);
  }

  /** Before the call: the byte at `va`, which holds `was`, is as wanted afterwards. */
  predicate StoresRightByte(regs: seq<word>, a: Pair, va: nat, was: Option<byte>)
    requires ValidRegs(regs) && a.Valid()
  {
    var p, q, reg := FirstAddress(regs, a), SecondStore(regs, a).0, SecondStore(regs, a).1;
    if InBack(va, q) then
      Some(WordBytes(reg)[va - q + 3]) == if 0 <= Offset(va, p) < 4 then Some(WordBytes(regs[a.rt])[Offset(va, p)]) else was
    else 0 <= Offset(va, p) < 4 && !InFront(va, p) ==> was == Some(WordBytes(regs[a.rt])[Offset(va, p)])
  }

  lemma StoreRightIff(regs: seq<word>, a: Pair, va: nat, was: Option<byte>)
    requires ValidRegs(regs) && a.Valid() && va < TWO_32
    ensures StoredByte(regs, a, va, was) == WantedByte(regs, a, va, was) <==> StoresRightByte(regs, a, va, was)
  {
    hide WordBytes, SecondStore, FirstAddress;
  }

  lemma SettledStoreByte(regs: seq<word>, a: Pair, va: nat, was: Option<byte>)
    requires ValidRegs(regs) && a.Valid() && va < TWO_32
    requires SecondStore(regs, a).0 == Wrap(FirstAddress(regs, a) + 3)
    ensures var q, reg := SecondStore(regs, a).0, SecondStore(regs, a).1;
            StoredByte(regs, a, va, was) == WantedByte(regs, a, va, was)
            <==> (InBack(va, q) ==> WordBytes(reg)[va - q + 3] == WordBytes(regs[a.rt])[va - q + 3])
  {
    hide WordBytes, SecondStore, FirstAddress;
  }

  /** If no pending load changes the base, the pair stores the word exactly if none changes
      those bytes of the register that the second half stores. */
  lemma SettledStoreRightIff(regs: seq<word>, a: Pair, was: nat -> Option<byte>)
    requires ValidRegs(regs) && a.Valid() && Settled(regs, a.rs)
    ensures var q := SecondStore(regs, a).0;
            (forall va: nat :: va < TWO_32 ==> StoredByte(regs, a, va, was(va)) == WantedByte(regs, a, va, was(va)))
            <==> SameBytes(regs[a.rt], SecondStore(regs, a).1, 3 - q % 4, 4)
  {
    hide WordBytes, StoredByte, WantedByte, SecondStore;
    SecondStoreIff(regs, a);
    var q, reg := SecondStore(regs, a).0, SecondStore(regs, a).1;
    var lo := 3 - q % 4;
    if forall va: nat :: va < TWO_32 ==> StoredByte(regs, a, va, was(va)) == WantedByte(regs, a, va, was(va)) {
      forall k | 0 <= k < 4 - lo
        ensures WordBytes(regs[a.rt])[lo..4][k] == WordBytes(reg)[lo..4][k]
      {
        SettledStoreByte(regs, a, q - q % 4 + k, was(q - q % 4 + k));
      }
    }
    if SameBytes(regs[a.rt], reg, lo, 4) {
      forall va: nat | va < TWO_32
        ensures StoredByte(regs, a, va, was(va)) == WantedByte(regs, a, va, was(va))
      {
        SettledStoreByte(regs, a, va, was(va));
        if InBack(va, q) {
          assert WordBytes(regs[a.rt])[lo..4][va - q + 3 - lo] == WordBytes(reg)[lo..4][va - q + 3 - lo];
        }
      }
    }
  }

  // ---------- A store, then a load ----------

  /** Nothing is on its way to the base or to the stored register, and the load after the store
      does not overwrite its own base. */
  predicate Undisturbed(regs: seq<word>, a: Pair, rd: nat)
    requires ValidRegs(regs) && a.Valid()
  {
    Settled(regs, a.rs) && Settled(regs, a.rt) && rd != 0 && (rd != a.rs || !a.interrupted)
  }

  lemma UndisturbedMeans(regs: seq<word>, a: Pair, rd: nat)
    requires ValidRegs(regs) && a.Valid() && Undisturbed(regs, a, rd)
    ensures Settled(regs, a.rs) && Settled(regs, a.rt) && rd != 0
  {
  }

  lemma StoredWord(m: Mapping, t: seq<Entry>, memory: seq<byte>, t': seq<Entry>, memory': seq<byte>, regs: seq<word>, a: Pair)
    requires |memory| == |memory'| == MEMORY_SIZE && ValidRegs(regs) && a.Valid()
    requires Settled(regs, a.rs) && Settled(regs, a.rt)
    requires forall va: nat :: ByteAt(m, t', memory', va) == StoredByte(regs, a, va, ByteAt(m, t, memory, va))
    ensures SecondStore(regs, a).0 == Wrap(FirstAddress(regs, a) + 3)
    ensures IsWordAt(m, t', memory', FirstAddress(regs, a), regs[a.rt])
  {
    hide WordBytes, ByteAt, FirstAddress, StoredByte, SecondStore;
    SecondStoreIff(regs, a);
    SecondValue(regs, a);
    var p := FirstAddress(regs, a);
    forall i: nat | i < 4
      ensures ByteAt(m, t', memory', Wrap(p + i)) == Some(WordBytes(regs[a.rt])[i])
    {
      SettledStoreByte(regs, a, Wrap(p + i), ByteAt(m, t, memory, Wrap(p + i)));
    }
  }

  lemma SecondValue(regs: seq<word>, a: Pair)
    requires ValidRegs(regs) && a.Valid() && Settled(regs, a.rt)
    ensures SecondStore(regs, a).1 == regs[a.rt]
  {
  }

  lemma WordReadBack(m: Mapping, t: seq<Entry>, memory: seq<byte>, regs: seq<word>, a: Pair, rd: nat)
    requires |memory| == MEMORY_SIZE && ValidRegs(regs) && a.Valid() && IsReg(rd) && Undisturbed(regs, a, rd)
    requires IsWordAt(m, t, memory, FirstAddress(regs, a), regs[a.rt])
    requires BothFound(m, t, FirstAddress(regs, a), Wrap(FirstAddress(regs, a) + 3), false)
    ensures var regs', b := Delayed(regs, 0, 0), a.(rt := rd);
            && FirstAddress(regs', b) == FirstAddress(regs, a)
            && SecondAddress(m, t, memory, regs', b) == Wrap(FirstAddress(regs, a) + 3)
            && PairWord(m, t, memory, regs', b) == regs[a.rt]
  {
    hide WordBytes, ByteAt, SecondAddress, PairWord, FirstWord, BothFound;
    var regs', b := Delayed(regs, 0, 0), a.(rt := rd);
    assert regs'[a.rs] == regs[a.rs];
    SameBaseLoadsRight(m, t, memory, regs', b);
    SameWordAt(m, t, memory, FirstAddress(regs, a), PairWord(m, t, memory, regs', b), regs[a.rt]);
  }

  lemma SameWordAt(m: Mapping, t: seq<Entry>, memory: seq<byte>, p: word, v: word, w: word)
    requires |memory| == MEMORY_SIZE && IsWordAt(m, t, memory, p, v) && IsWordAt(m, t, memory, p, w)
    ensures v == w
  {
    hide WordBytes, ByteAt;
    forall i: nat | i < 4
      ensures WordBytes(v)[i] == WordBytes(w)[i]
    {
      assert ByteAt(m, t, memory, Wrap(p + i)) == Some(WordBytes(v)[i]);
    }
    EqualBytes(v, w);
  }

  // ---------- A store that goes wrong ----------

  /** A store through a base that a load of 8 is about to reach: the second half goes to the word at 8. */
  lemma BasePending()
    ensures var regs: seq<word> := seq(NUM_TOTAL_REGS, _ => 0)[LOAD_REG := 1][LOAD_VALUE_REG := 8];
            var a := Pair(1, 2, 0, false);
            && ValidRegs(regs) && a.Valid() && !Settled(regs, 1)
            && FirstAddress(regs, a) == 0 && SecondStore(regs, a).0 == 11
            && StoredByte(regs, a, 8, Some(5)) == Some(0) && WantedByte(regs, a, 8, Some(5)) == Some(5)
  {
  }
}
