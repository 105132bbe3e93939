/** The registers of the simulated MIPS machine and their load delay (machine/machine.h and machine/mipssim.cc). */
module Registers {
  import opened Words
  import opened Bytes

  const NUM_GP_REGS := 32
  const LOAD_REG := 37
  const LOAD_VALUE_REG := 38
  const BAD_VADDR_REG := 39
  const NUM_TOTAL_REGS := 40

  predicate IsReg(r: int) { 0 <= r < NUM_GP_REGS }

  predicate ValidRegs(regs: seq<word>) {
    |regs| == NUM_TOTAL_REGS && IsReg(regs[LOAD_REG]) && regs[0] == 0
  }

  /** The pending load reaches its register, and another takes its place. */
  function Delayed(regs: seq<word>, nextReg: word, nextValue: word): (r: seq<word>)
    requires ValidRegs(regs) && IsReg(nextReg)
    ensures ValidRegs(r)
  {
    regs[regs[LOAD_REG] := regs[LOAD_VALUE_REG]][LOAD_REG := nextReg][LOAD_VALUE_REG := nextValue][0 := 0]
  }

  /** The registers when the kernel takes over after an exception. */
  function Raised(regs: seq<word>, badVAddr: word): (r: seq<word>)
    requires ValidRegs(regs)
    ensures ValidRegs(r)
  {
    Delayed(regs[BAD_VADDR_REG := badVAddr], 0, 0)
  }

  /** The value of a register, with a pending load taken into account. */
  function Forwarded(regs: seq<word>, r: nat): word
    requires ValidRegs(regs) && IsReg(r)
  {
    if regs[LOAD_REG] == r then regs[LOAD_VALUE_REG] else regs[r]
  }

  /** The effective address of an access. */
  function Address(regs: seq<word>, rs: nat, extra: int32): word
    requires ValidRegs(regs) && IsReg(rs)
  {
    (regs[rs] + extra) % TWO_32
  }

  /** No other value is on its way to the register. */
  predicate Settled(regs: seq<word>, r: nat)
    requires ValidRegs(regs) && IsReg(r)
  {
    regs[LOAD_REG] != r || r == 0 || regs[LOAD_VALUE_REG] == regs[r]
  }

  /** Addresses wrap around. */
  function Wrap(x: nat): word
    requires x < 2 * TWO_32
  {
    if x < TWO_32 then x else x - TWO_32
  }

  lemma NextAddress(base: word, extra: int)
    ensures (base + (extra + 3)) % TWO_32 == Wrap((base + extra) % TWO_32 + 3)
  {
    var p := (base + extra) % TWO_32;
    var k := (base + extra) / TWO_32;
    assert base + extra + 3 == k * TWO_32 + p + 3;
  }

  lemma SameSum(a: word, b: word, e: int32)
    ensures (a + e) % TWO_32 == (b + e) % TWO_32 <==> a == b
  {
    var i, j := (a + e) / TWO_32, (b + e) / TWO_32;
    assert a + e == i * TWO_32 + (a + e) % TWO_32 && b + e == j * TWO_32 + (b + e) % TWO_32;
    if (a + e) % TWO_32 == (b + e) % TWO_32 {
      assert a - b == (i - j) * TWO_32;
    }
  }

  // ---------- Between the two instructions of an unaligned access ----------

  /** After the first load of a pair, and after an interrupt if one comes before the second. */
  function Between(regs: seq<word>, rt: nat, v: word, interrupted: bool): (r: seq<word>)
    requires ValidRegs(regs) && IsReg(rt)
    ensures ValidRegs(r)
  {
    if interrupted then Delayed(Delayed(regs, rt, v), 0, 0) else Delayed(regs, rt, v)
  }

  /** The base register of the second load: a load that was pending has arrived by then, and
      so has the first half itself if there was an interrupt. */
  lemma BaseBetween(regs: seq<word>, rs: nat, rt: nat, v: word, interrupted: bool)
    requires ValidRegs(regs) && IsReg(rs) && IsReg(rt)
    ensures Between(regs, rt, v, interrupted)[rs]
         == if rs == 0 then 0 else if interrupted && rs == rt then v else Forwarded(regs, rs)
  {
  }

  /** After both halves and the load delay the target has the second value; the first was forwarded to it. */
  lemma PairRegs(regs: seq<word>, rt: nat, v: word, w: word, interrupted: bool)
    requires ValidRegs(regs) && IsReg(rt)
    ensures rt != 0 ==> Forwarded(Between(regs, rt, v, interrupted), rt) == v
    ensures var r := Delayed(Delayed(Between(regs, rt, v, interrupted), rt, w), 0, 0);
            (rt != 0 ==> r[rt] == w) && forall i :: 0 < i < NUM_GP_REGS && i != rt ==> r[i] == Forwarded(regs, i)
  {
  }

  lemma StoreRegs(regs: seq<word>)
    requires ValidRegs(regs)
    ensures Delayed(Delayed(regs, 0, 0), 0, 0) == Delayed(regs, 0, 0)
    ensures forall i :: 0 < i < NUM_GP_REGS ==> Delayed(regs, 0, 0)[i] == Forwarded(regs, i)
  {
  }
}
