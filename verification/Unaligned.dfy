/** The word arithmetic of the unaligned loads and stores (machine/mipssim.cc, LWL, LWR, SWL and SWR
    as compiled with SIM_FIX): what the masks and shifts do to the bytes of a word. */
module UnalignedWords {
  import opened Words
  import opened Bytes

  // ---------- Masks, shifts and sums ----------

  /** The last `k` bits. */
  function Low(x: nat, k: nat): nat {
    if k == 0 then 0 else x % 2 + 2 * Low(x / 2, k - 1)
  }

  /** The others. */
  function High(x: nat, k: nat): nat {
    if k == 0 then x else High(x / 2, k - 1)
  }

  lemma {:induction false} LowHigh(x: nat, k: nat)
    ensures Low(x, k) < Pow2(k) && x == Low(x, k) + Pow2(k) * High(x, k)
  {
    if k > 0 {
      LowHigh(x / 2, k - 1);
      Twice(k);
      DoubleProduct(Pow2(k - 1), High(x / 2, k - 1));
      hide Pow2;
    }
  }

  lemma Twice(n: nat)
    requires n > 0
    ensures Pow2(n) == 2 * Pow2(n - 1)
  {
  }

  lemma Rest8(x: nat, r: nat, q: nat)
    requires x == r + 0x100 * q && r < 0x100
    ensures x % 0x100 == r
  {
  }

  lemma Quotient8(x: nat, r: nat, q: nat)
    requires x == r + 0x100 * q && r < 0x100
    ensures x / 0x100 == q && x % 0x100 == r
  {
  }

  lemma Quotient16(x: nat, r: nat, q: nat)
    requires x == r + 0x1_0000 * q && r < 0x1_0000
    ensures x / 0x1_0000 == q
  {
  }

  lemma Quotient24(x: nat, r: nat, q: nat)
    requires x == r + 0x100_0000 * q && r < 0x100_0000
    ensures x / 0x100_0000 == q
  {
  }

  lemma Rest16(x: nat, r: nat, q: nat)
    requires x == r + 0x1_0000 * q && r < 0x1_0000
    ensures x % 0x1_0000 == r
  {
  }

  lemma Rest24(x: nat, r: nat, q: nat)
    requires x == r + 0x100_0000 * q && r < 0x100_0000
    ensures x % 0x100_0000 == r
  {
  }

  lemma Rest32(x: nat, r: nat, q: nat)
    requires x == r + TWO_32 * q && r < TWO_32
    ensures x % TWO_32 == r
  {
  }

  lemma LowBytes(x: nat)
    ensures Low(x, 8) == x % 0x100 && Low(x, 16) == x % 0x1_0000 && Low(x, 24) == x % 0x100_0000
  {
    hide Low, High, Pow2;
    Powers();
    LowHigh(x, 8);
    LowHigh(x, 16);
    LowHigh(x, 24);
    Rest8(x, Low(x, 8), High(x, 8));
    Rest16(x, Low(x, 16), High(x, 16));
    Rest24(x, Low(x, 24), High(x, 24));
  }

  /** A mask of ones below bit `k` keeps the last `k` bits. */
  lemma {:induction false} AndLow(n: nat, x: nat, k: nat)
    requires k <= n
    ensures And(n, x, Pow2(k) - 1) == Low(x, k)
  {
    if k == 0 {
      AndZero(n, x);
    } else {
      AndLow(n - 1, x / 2, k - 1);
      assert (Pow2(k) - 1) / 2 == Pow2(k - 1) - 1 && (Pow2(k) - 1) % 2 == 1;
    }
  }

  lemma {:induction false} AndZero(n: nat, x: nat)
    ensures And(n, x, 0) == 0
  {
    if n > 0 {
      AndZero(n - 1, x / 2);
      assert 0 / 2 == 0;
    }
  }

  lemma {:induction false} LowAll(x: nat, n: nat)
    requires x < Pow2(n)
    ensures Low(x, n) == x
  {
    if n > 0 {
      LowAll(x / 2, n - 1);
    }
  }

  /** A mask of ones from bit `k` on clears the last `k` bits. */
  lemma {:induction false} AndHigh(n: nat, x: nat, k: nat)
    requires k <= n && x < Pow2(n)
    ensures Pow2(k) <= Pow2(n) && And(n, x, Pow2(n) - Pow2(k)) == x - Low(x, k)
  {
    hide And, Pow2;
    if k == 0 {
      AndAll(n, x);
    } else {
      Twice(n);
      Twice(k);
      HalfBelow(x, Pow2(n - 1));
      AndHigh(n - 1, x / 2, k - 1);
      AndEven(n, x, Pow2(n - 1) - Pow2(k - 1));
    }
  }

  lemma AndAll(n: nat, x: nat)
    requires x < Pow2(n)
    ensures Pow2(0) == 1 && And(n, x, Pow2(n) - Pow2(0)) == x
  {
    hide And;
    AndLow(n, x, n);
    LowAll(x, n);
  }

  lemma HalfBelow(x: nat, p: nat)
    requires x < 2 * p
    ensures x / 2 < p
  {
  }

  /** An even mask drops the last bit. */
  lemma AndEven(n: nat, x: nat, mask: nat)
    requires n > 0
    ensures And(n, x, 2 * mask) == 2 * And(n - 1, x / 2, mask)
  {
    assert 2 * mask / 2 == mask && 2 * mask % 2 == 0;
  }

  /** Without common bits, `|` is addition. */
  lemma {:induction false} OrSum(n: nat, low: nat, h: nat, k: nat)
    requires k <= n && low < Pow2(k) && h < Pow2(n) && Low(h, k) == 0
    ensures Or(n, low, h) == Or(n, h, low) == low + h
  {
    if k == 0 {
      OrZero(n, h);
    } else {
      OrSum(n - 1, low / 2, h / 2, k - 1);
    }
  }

  lemma {:induction false} OrZero(n: nat, x: nat)
    requires x < Pow2(n)
    ensures Or(n, 0, x) == Or(n, x, 0) == x
  {
    if n > 0 {
      OrZero(n - 1, x / 2);
      assert 0 / 2 == 0;
    }
  }

  lemma Powers()
    ensures Pow2(8) == 0x100 && Pow2(16) == 0x1_0000 && Pow2(24) == 0x100_0000 && Pow2(32) == TWO_32
  {
    Pow2_32();
    assert Pow2(12) == 0x1000 && Pow2(20) == 0x10_0000;
  }

  /** `v << k`, where `p` is the k-th power of two. */
  function Shl(v: word, p: nat): word { v * p % TWO_32 }

  /** `v >> k` on a C `int`: it copies the sign. */
  function Shr(v: word, p: nat): word
    requires p > 0
  {
    AsInt(v) / p % TWO_32
  }

  // ---------- Words and their bytes ----------

  lemma MaskLow(x: word)
    ensures WordAnd(x, 0xff) == x % 0x100 && WordAnd(x, 0xffff) == x % 0x1_0000 && WordAnd(x, 0xff_ffff) == x % 0x100_0000
  {
    hide Pow2, And;
    Powers();
    AndLow(32, x, 8);
    AndLow(32, x, 16);
    AndLow(32, x, 24);
    LowBytes(x);
  }

  lemma MaskHigh(x: word)
    ensures WordAnd(x, 0xffff_ff00) == x - x % 0x100 && WordAnd(x, 0xffff_0000) == x - x % 0x1_0000
    ensures WordAnd(x, 0xff00_0000) == x - x % 0x100_0000
  {
    hide Pow2, And;
    Powers();
    AndHigh(32, x, 8);
    AndHigh(32, x, 16);
    AndHigh(32, x, 24);
    LowBytes(x);
  }

  /** Joining a low and a high part that share no bit. */
  lemma Join8(low: word, h: word)
    requires low < 0x100 && h % 0x100 == 0
    ensures WordOr(low, h) == WordOr(h, low) == low + h
  {
    hide Pow2, Or, Low;
    Powers();
    LowBytes(h);
    OrSum(32, low, h, 8);
  }

  lemma Join16(low: word, h: word)
    requires low < 0x1_0000 && h % 0x1_0000 == 0
    ensures WordOr(low, h) == WordOr(h, low) == low + h
  {
    hide Pow2, Or, Low;
    Powers();
    LowBytes(h);
    OrSum(32, low, h, 16);
  }

  lemma Join24(low: word, h: word)
    requires low < 0x100_0000 && h % 0x100_0000 == 0
    ensures WordOr(low, h) == WordOr(h, low) == low + h
  {
    hide Pow2, Or, Low;
    Powers();
    LowBytes(h);
    OrSum(32, low, h, 24);
  }

  lemma BytesRoundTrip(b: seq<byte>)
    requires |b| == 4
    ensures WordBytes(BytesWord(b)) == b
  {
    var x0, x1, x2, x3 := b[0] as int, b[1] as int, b[2] as int, b[3] as int;
    Quotient8(BytesWord(b), x0, x1 + 0x100 * x2 + 0x1_0000 * x3);
    Quotient16(BytesWord(b), x0 + 0x100 * x1, x2 + 0x100 * x3);
    Quotient24(BytesWord(b), x0 + 0x100 * x1 + 0x1_0000 * x2, x3);
    Rest8(x1 + 0x100 * x2 + 0x1_0000 * x3, x1, x2 + 0x100 * x3);
    Rest8(x2 + 0x100 * x3, x2, x3);
  }

  /** The low and the shifted parts of a word, in its bytes. */
  lemma LeftParts(x0: int, x1: int, x2: int, x3: int)
    requires 0 <= x0 < 256 && 0 <= x1 < 256 && 0 <= x2 < 256 && 0 <= x3 < 256
    ensures var v := x0 + 0x100 * x1 + 0x1_0000 * x2 + 0x100_0000 * x3;
            && 0 <= v < TWO_32 && v % 0x100 == x0 && v % 0x1_0000 == x0 + 0x100 * x1
            && v % 0x100_0000 == x0 + 0x100 * x1 + 0x1_0000 * x2
            && Shl(v, 0x100) == 0x100 * x0 + 0x1_0000 * x1 + 0x100_0000 * x2
            && Shl(v, 0x1_0000) == 0x1_0000 * x0 + 0x100_0000 * x1
            && Shl(v, 0x100_0000) == 0x100_0000 * x0
  {
    var v := x0 + 0x100 * x1 + 0x1_0000 * x2 + 0x100_0000 * x3;
    Rest8(v, x0, x1 + 0x100 * x2 + 0x1_0000 * x3);
    Rest16(v, x0 + 0x100 * x1, x2 + 0x100 * x3);
    Rest24(v, x0 + 0x100 * x1 + 0x1_0000 * x2, x3);
    Rest32(v * 0x100, 0x100 * x0 + 0x1_0000 * x1 + 0x100_0000 * x2, x3);
    Rest32(v * 0x1_0000, 0x1_0000 * x0 + 0x100_0000 * x1, x2 + 0x100 * x3);
    Rest32(v * 0x100_0000, 0x100_0000 * x0, x1 + 0x100 * x2 + 0x1_0000 * x3);
  }

  /** Shifting a C `int` right copies its sign; the masks drop the copies. */
  lemma RightPart8(x0: int, h: int)
    requires 0 <= x0 < 0x100 && 0 <= h < 0x100_0000
    ensures Shr(x0 + 0x100 * h, 0x100) % 0x100_0000 == h
  {
    var g := if h < 0x80_0000 then h else h - 0x100_0000;
    assert AsInt(x0 + 0x100 * h) == x0 + 0x100 * g;
    assert (x0 + 0x100 * g) / 0x100 == g;
  }

  lemma RightPart16(x: int, h: int)
    requires 0 <= x < 0x1_0000 && 0 <= h < 0x1_0000
    ensures Shr(x + 0x1_0000 * h, 0x1_0000) % 0x1_0000 == h
  {
    var g := if h < 0x8000 then h else h - 0x1_0000;
    assert AsInt(x + 0x1_0000 * h) == x + 0x1_0000 * g;
    assert (x + 0x1_0000 * g) / 0x1_0000 == g;
  }

  lemma RightPart24(x: int, h: int)
    requires 0 <= x < 0x100_0000 && 0 <= h < 0x100
    ensures Shr(x + 0x100_0000 * h, 0x100_0000) % 0x100 == h
  {
    var g := if h < 0x80 then h else h - 0x100;
    assert AsInt(x + 0x100_0000 * h) == x + 0x100_0000 * g;
    assert (x + 0x100_0000 * g) / 0x100_0000 == g;
  }

  lemma Parts(b: seq<byte>)
    requires |b| == 4
    ensures var v, x0, x1, x2, x3 := BytesWord(b), b[0] as int, b[1] as int, b[2] as int, b[3] as int;
            && v % 0x100 == x0 && v % 0x1_0000 == x0 + 0x100 * x1 && v % 0x100_0000 == x0 + 0x100 * x1 + 0x1_0000 * x2
            && Shl(v, 0x100) == 0x100 * x0 + 0x1_0000 * x1 + 0x100_0000 * x2
            && Shl(v, 0x1_0000) == 0x1_0000 * x0 + 0x100_0000 * x1
            && Shl(v, 0x100_0000) == 0x100_0000 * x0
            && Shr(v, 0x100) % 0x100_0000 == x1 + 0x100 * x2 + 0x1_0000 * x3
            && Shr(v, 0x1_0000) % 0x1_0000 == x2 + 0x100 * x3
            && Shr(v, 0x100_0000) % 0x100 == x3
  {
    hide Shl, Shr;
    var x0, x1, x2, x3 := b[0] as int, b[1] as int, b[2] as int, b[3] as int;
    LeftParts(x0, x1, x2, x3);
    RightPart8(x0, x1 + 0x100 * x2 + 0x1_0000 * x3);
    RightPart16(x0 + 0x100 * x1, x2 + 0x100 * x3);
    RightPart24(x0 + 0x100 * x1 + 0x1_0000 * x2, x3);
  }

  // ---------- The four instructions ----------

  /** LWL: the new value of the register from its old one and the aligned word, for byte offset `at`. */
  function LwlWord(reg: word, value: word, at: nat): word
    requires at < 4
  {
    match 3 - at
    case 0 => value
    case 1 => WordOr(WordAnd(reg, 0xff), Shl(value, 0x100))
    case 2 => WordOr(WordAnd(reg, 0xffff), Shl(value, 0x1_0000))
    case _ => WordOr(WordAnd(reg, 0xff_ffff), Shl(value, 0x100_0000))
  }

  function LwrWord(reg: word, value: word, at: nat): word
    requires at < 4
  {
    match 3 - at
    case 0 => WordOr(WordAnd(reg, 0xffff_ff00), WordAnd(Shr(value, 0x100_0000), 0xff))
    case 1 => WordOr(WordAnd(reg, 0xffff_0000), WordAnd(Shr(value, 0x1_0000), 0xffff))
    case 2 => WordOr(WordAnd(reg, 0xff00_0000), WordAnd(Shr(value, 0x100), 0xff_ffff))
    case _ => value
  }

  /** SWL: the new aligned word from its old value and the register. */
  function SwlWord(value: word, reg: word, at: nat): word
    requires at < 4
  {
    match 3 - at
    case 0 => reg
    case 1 => WordOr(WordAnd(value, 0xff00_0000), WordAnd(Shr(reg, 0x100), 0xff_ffff))
    case 2 => WordOr(WordAnd(value, 0xffff_0000), WordAnd(Shr(reg, 0x1_0000), 0xffff))
    case _ => WordOr(WordAnd(value, 0xffff_ff00), WordAnd(Shr(reg, 0x100_0000), 0xff))
  }

  function SwrWord(value: word, reg: word, at: nat): word
    requires at < 4
  {
    match 3 - at
    case 0 => WordOr(WordAnd(value, 0xff_ffff), Shl(reg, 0x100_0000))
    case 1 => WordOr(WordAnd(value, 0xffff), Shl(reg, 0x1_0000))
    case 2 => WordOr(WordAnd(value, 0xff), Shl(reg, 0x100))
    case _ => reg
  }

  lemma Value(b: seq<byte>)
    requires |b| == 4
    ensures BytesWord(b) == b[0] as int + 0x100 * b[1] as int + 0x1_0000 * b[2] as int + 0x100_0000 * b[3] as int
  {
  }

  lemma LwlValue(o: seq<byte>, v: seq<byte>, at: nat)
    requires at < 4 && |o| == |v| == 4
    ensures LwlWord(BytesWord(o), BytesWord(v), at) == BytesWord(o[..3 - at] + v[..at + 1])
  {
    hide WordAnd, WordOr, BytesWord, Shl, Shr;
    var reg, value := BytesWord(o), BytesWord(v);
    MaskLow(reg);
    Parts(o);
    Parts(v);
    Value(o[..3 - at] + v[..at + 1]);
    match 3 - at
    case 0 => assert o[..0] + v[..4] == v;
    case 1 =>
      Rest8(Shl(value, 0x100), 0, v[0] as int + 0x100 * v[1] as int + 0x1_0000 * v[2] as int);
      Join8(WordAnd(reg, 0xff), Shl(value, 0x100));
    case 2 =>
      Rest16(Shl(value, 0x1_0000), 0, v[0] as int + 0x100 * v[1] as int);
      Join16(WordAnd(reg, 0xffff), Shl(value, 0x1_0000));
    case _ =>
      Rest24(Shl(value, 0x100_0000), 0, v[0] as int);
      Join24(WordAnd(reg, 0xff_ffff), Shl(value, 0x100_0000));
  }

  /** The top bytes of one word over the low part `low` of another. */
  lemma Over8(o: seq<byte>, low: word)
    requires |o| == 4 && low < 0x100
    ensures WordOr(WordAnd(BytesWord(o), 0xffff_ff00), low)
         == low + 0x100 * o[1] as int + 0x1_0000 * o[2] as int + 0x100_0000 * o[3] as int
  {
    hide WordAnd, WordOr, BytesWord, Shl, Shr;
    MaskHigh(BytesWord(o));
    TopParts(o);
    Join8(low, WordAnd(BytesWord(o), 0xffff_ff00));
  }

  lemma Over16(o: seq<byte>, low: word)
    requires |o| == 4 && low < 0x1_0000
    ensures WordOr(WordAnd(BytesWord(o), 0xffff_0000), low) == low + 0x1_0000 * o[2] as int + 0x100_0000 * o[3] as int
  {
    hide WordAnd, WordOr, BytesWord, Shl, Shr;
    MaskHigh(BytesWord(o));
    TopParts(o);
    Join16(low, WordAnd(BytesWord(o), 0xffff_0000));
  }

  lemma Over24(o: seq<byte>, low: word)
    requires |o| == 4 && low < 0x100_0000
    ensures WordOr(WordAnd(BytesWord(o), 0xff00_0000), low) == low + 0x100_0000 * o[3] as int
  {
    hide WordAnd, WordOr, BytesWord, Shl, Shr;
    MaskHigh(BytesWord(o));
    TopParts(o);
    Join24(low, WordAnd(BytesWord(o), 0xff00_0000));
  }

  /** What is left of a word without its last bytes. */
  lemma TopParts(o: seq<byte>)
    requires |o| == 4
    ensures var v := BytesWord(o);
            && v - v % 0x100 == 0x100 * o[1] as int + 0x1_0000 * o[2] as int + 0x100_0000 * o[3] as int
            && v - v % 0x1_0000 == 0x1_0000 * o[2] as int + 0x100_0000 * o[3] as int
            && v - v % 0x100_0000 == 0x100_0000 * o[3] as int
            && (v - v % 0x100) % 0x100 == 0 && (v - v % 0x1_0000) % 0x1_0000 == 0
            && (v - v % 0x100_0000) % 0x100_0000 == 0
  {
    hide BytesWord, Shl, Shr;
    Parts(o);
    Value(o);
    var v := BytesWord(o);
    Rest8(v - v % 0x100, 0, o[1] as int + 0x100 * o[2] as int + 0x1_0000 * o[3] as int);
    Rest16(v - v % 0x1_0000, 0, o[2] as int + 0x100 * o[3] as int);
    Rest24(v - v % 0x100_0000, 0, o[3] as int);
  }

  lemma LwrValue(o: seq<byte>, v: seq<byte>, at: nat)
    requires at < 4 && |o| == |v| == 4
    ensures LwrWord(BytesWord(o), BytesWord(v), at) == BytesWord(v[at..] + o[4 - at..])
  {
    hide WordAnd, WordOr, BytesWord, Shl, Shr;
    var value := BytesWord(v);
    Parts(v);
    Value(v[at..] + o[4 - at..]);
    match 3 - at
    case 0 =>
      MaskLow(Shr(value, 0x100_0000));
      Over8(o, WordAnd(Shr(value, 0x100_0000), 0xff));
    case 1 =>
      MaskLow(Shr(value, 0x1_0000));
      Over16(o, WordAnd(Shr(value, 0x1_0000), 0xffff));
    case 2 =>
      MaskLow(Shr(value, 0x100));
      Over24(o, WordAnd(Shr(value, 0x100), 0xff_ffff));
    case _ => assert v[0..] + o[4..] == v;
  }

  /** The first bytes of the memory word become the last of the register. */
  lemma LwlBytes(reg: word, value: word, at: nat)
    requires at < 4
    ensures WordBytes(LwlWord(reg, value, at)) == WordBytes(reg)[..3 - at] + WordBytes(value)[..at + 1]
  {
    hide LwlWord, WordBytes, BytesWord;
    WordRoundTrip(reg);
    WordRoundTrip(value);
    LwlValue(WordBytes(reg), WordBytes(value), at);
    BytesRoundTrip(WordBytes(reg)[..3 - at] + WordBytes(value)[..at + 1]);
  }

  /** The last bytes of the memory word become the first of the register. */
  lemma LwrBytes(reg: word, value: word, at: nat)
    requires at < 4
    ensures WordBytes(LwrWord(reg, value, at)) == WordBytes(value)[at..] + WordBytes(reg)[4 - at..]
  {
    hide LwrWord, WordBytes, BytesWord;
    WordRoundTrip(reg);
    WordRoundTrip(value);
    LwrValue(WordBytes(reg), WordBytes(value), at);
    BytesRoundTrip(WordBytes(value)[at..] + WordBytes(reg)[4 - at..]);
  }

  /** SWL stores the last bytes of the register at the front of the word, SWR the first at its end. */
  lemma SwlBytes(value: word, reg: word, at: nat)
    requires at < 4
    ensures WordBytes(SwlWord(value, reg, at)) == WordBytes(reg)[3 - at..] + WordBytes(value)[at + 1..]
  {
    hide WordAnd, WordOr, WordBytes, Shl, Shr;
    LwrBytes(value, reg, 3 - at);
  }

  lemma SwrBytes(value: word, reg: word, at: nat)
    requires at < 4
    ensures WordBytes(SwrWord(value, reg, at)) == WordBytes(value)[..at] + WordBytes(reg)[..4 - at]
  {
    hide WordAnd, WordOr, WordBytes, Shl, Shr;
    LwlBytes(value, reg, 3 - at);
  }
}
