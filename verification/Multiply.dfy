/** The MIPS simulator's 32 x 32 -> 64 bit multiplication by shifting and adding (machine/mipssim.cc). */
module Multiply {
  import opened Common
  import opened Words
  import opened Bytes

  /** A double word, and what a value is when 64 bits hold it. */
  function Wide(hi: word, lo: word): (r: nat)
    ensures r < TWO_32 * TWO_32
  {
    hi * TWO_32 + lo
  }

  function Wrap(x: int): word { x % TWO_32 }

  /** C's negation of an `int`: the most negative one is its own negation. */
  function Negated(x: int32): int32 { AsInt(Wrap(0 - x)) }

  lemma Magnitude(x: int32)
    ensures AsWord(if x < 0 then Negated(x) else x) == Abs(x)
    ensures x < 0 ==> Negated(x) != 0
  {
  }

  lemma WrapSum(x: word, y: int)
    requires 0 <= y <= TWO_32
    ensures Wrap(x + y) == if x + y < TWO_32 then x + y else x + y - TWO_32
  {
  }

  /** `lo += bLo; if (lo < bLo) hi += 1; hi += bHi;` adds double words. */
  lemma AddWithCarry(hi: word, lo: word, bHi: word, bLo: word)
    requires Wide(hi, lo) + Wide(bHi, bLo) < TWO_32 * TWO_32
    ensures var lo' := Wrap(lo + bLo);
            var hi' := Wrap((if lo' < bLo then Wrap(hi + 1) else hi) + bHi);
            Wide(hi', lo') == Wide(hi, lo) + Wide(bHi, bLo)
  {
    hide Wrap;
    WrapSum(lo, bLo);
    var lo' := Wrap(lo + bLo);
    assert lo' < bLo <==> lo + bLo >= TWO_32;
    WrapSum(hi, 1);
    var carried := if lo' < bLo then Wrap(hi + 1) else hi;
    assert carried == hi + (if lo' < bLo then 1 else 0);
    WrapSum(carried, bHi);
  }

  /** `bHi <<= 1; if (bLo & 0x80000000) bHi |= 1; bLo <<= 1;` doubles a double word. */
  lemma ShiftLeft(bHi: word, bLo: word)
    requires 2 * Wide(bHi, bLo) < TWO_32 * TWO_32
    ensures var bHi' := Wrap(2 * bHi) + (if bLo >= 0x8000_0000 then 1 else 0);
            bHi' < TWO_32 && Wide(bHi', Wrap(2 * bLo)) == 2 * Wide(bHi, bLo)
  {
    var top := if bLo >= 0x8000_0000 then 1 else 0;
    assert Wrap(2 * bLo) == 2 * bLo - top * TWO_32;
    assert (2 * bHi + top) * TWO_32 + Wrap(2 * bLo) < TWO_32 * TWO_32;
    assert 2 * bHi + top < TWO_32;
  }

  /** `hi = ~hi; lo = ~lo; lo++; if (lo == 0) hi++;` negates a double word. */
  lemma Complement(hi: word, lo: word)
    requires Wide(hi, lo) > 0
    ensures var lo' := Wrap(TWO_32 - 1 - lo + 1);
            var hi' := if lo' == 0 then Wrap(TWO_32 - 1 - hi + 1) else TWO_32 - 1 - hi;
            Wide(hi', lo') == TWO_32 * TWO_32 - Wide(hi, lo)
  {
  }

  function Times(x: nat, y: nat): nat { x * y }

  lemma Product(a: int, b: int, m: int, n: int)
    requires 0 < a <= m && 0 < b <= n
    ensures 0 < a * b <= m * n
  {
    assert a * b <= m * b <= m * n;
  }

  /** One round: the last of the bits `u` still to come decides whether `b` is added, and `b` is doubled.
      `q` bounds both what the bits can be and how often `b` can still be doubled. */
  lemma Round(u: nat, q: nat, b: nat)
    requires u < q && q % 2 == 0 && Times(b, q) < TWO_32 * TWO_32
    ensures Times(u, b) == (if u % 2 == 1 then b else 0) + Times(u / 2, 2 * b)
    ensures 2 * b < TWO_32 * TWO_32 && Times(2 * b, q / 2) < TWO_32 * TWO_32 && u / 2 < q / 2
    ensures Times(1, b) == b
  {
    Halved(u, b);
    assert (2 * b) * (q / 2) == b * (2 * (q / 2)) == b * q;
    assert (2 * b) * (q / 2) >= 2 * b;
  }

  lemma Halved(u: nat, b: nat)
    ensures u * b == (if u % 2 == 1 then b else 0) + (u / 2) * (2 * b)
  {
    var h := u / 2;
    assert h * (2 * b) == 2 * h * b;
    if u % 2 == 1 {
      assert u == 2 * h + 1;
      assert (2 * h + 1) * b == 2 * h * b + b;
    } else {
      assert u == 2 * h;
    }
  }

  /** The last bit, and the shift, of a negative `a`. */
  lemma Shifted(u: nat, q: nat)
    requires q % 2 == 0
    ensures (u - q) % 2 == u % 2 && (u - q) / 2 == u / 2 - q / 2
  {
    var h := q / 2;
    assert q == 2 * h;
  }

  /** After `i` rounds: `u` holds the bits of `a` still to come, fewer than `q`; what has been added
      up so far and what they will still add make up the product. */
  ghost predicate InRound(i: nat, u: nat, q: nat, bHi: word, bLo: word, hi: word, lo: word, product: nat) {
    && i <= 32 && q == Pow2(32 - i) && u < q && product < TWO_32 * TWO_32
    && (i < 32 ==> Times(Wide(bHi, bLo), q) < TWO_32 * TWO_32)
    && Wide(hi, lo) + Times(u, Wide(bHi, bLo)) == product
  }

  lemma RoundBounds(i: nat, u: nat, q: nat, bHi: word, bLo: word, hi: word, lo: word, product: nat)
    requires InRound(i, u, q, bHi, bLo, hi, lo, product)
    ensures u < q && (i < 32 ==> q % 2 == 0)
    ensures i == 32 ==> q == 1 && Wide(hi, lo) == product
  {
    hide Wide, Times;
    if i < 32 {
      Halves(32 - i);
    } else {
      Halves(1);
      Nothing(Wide(bHi, bLo));
    }
  }

  /** One round keeps this; and when no bits are left the sum is complete. */
  lemma RoundKeeps(i: nat, u: nat, q: nat, bHi: word, bLo: word, hi: word, lo: word, product: nat, hi': word, lo': word)
    requires i < 32 && InRound(i, u, q, bHi, bLo, hi, lo, product)
    requires u % 2 == 1 ==> lo' == Wrap(lo + bLo) && hi' == Wrap((if lo' < bLo then Wrap(hi + 1) else hi) + bHi)
    requires u % 2 == 0 ==> lo' == lo && hi' == hi
    ensures u == 1 ==> Wide(hi', lo') == product
    ensures Wrap(2 * bHi) + (if bLo >= 0x8000_0000 then 1 else 0) < TWO_32
    ensures InRound(i + 1, u / 2, q / 2, Wrap(2 * bHi) + (if bLo >= 0x8000_0000 then 1 else 0), Wrap(2 * bLo), hi', lo', product)
  {
    hide Wide, Times, Wrap, Pow2;
    Halves(32 - i);
    Round(u, q, Wide(bHi, bLo));
    if u % 2 == 1 {
      AddWithCarry(hi, lo, bHi, bLo);
    }
    ShiftLeft(bHi, bLo);
    Nothing(2 * Wide(bHi, bLo));
  }

  /** The loop, on operands read as unsigned. */
  method MultiplyUnsigned(a0: int32, b: int32) returns (hi: word, lo: word)
    requires a0 != 0
    ensures Wide(hi, lo) == AsWord(a0) * AsWord(b)
  {
    hide Pow2, Wide, Times, InRound, Wrap;
    var a: int32 := a0;
    var bLo: word, bHi: word := AsWord(b), 0;
    lo, hi := 0, 0;
    ghost var product: nat := AsWord(a0) * AsWord(b);
    ghost var u: nat, q: nat := AsWord(a0), TWO_32;
    Start(a0, b);
    var i := 0;
    while i < 32
      invariant 0 <= i <= 32 && a == (if a0 < 0 then u - q else u) && a != 0 && u >= 0
      invariant InRound(i, u, q, bHi, bLo, hi, lo, product)
    {
      RoundBounds(i, u, q, bHi, bLo, hi, lo, product);
      Shifted(u, q);
      ghost var hi0, lo0 := hi, lo;
      if a % 2 == 1 {
        lo := Wrap(lo + bLo);
        if lo < bLo {
          hi := Wrap(hi + 1);
        }
        hi := Wrap(hi + bHi);
        if a - a % 2 == 0 {
          assert a == 1;
          RoundKeeps(i, u, q, bHi, bLo, hi0, lo0, product, hi, lo);
          return;
        }
      }
      RoundKeeps(i, u, q, bHi, bLo, hi0, lo0, product, hi, lo);
      bHi := Wrap(2 * bHi) + (if bLo >= 0x8000_0000 then 1 else 0);
      bLo := Wrap(2 * bLo);
      a := a / 2;
      i := i + 1;
      u, q := u / 2, q / 2;
    }
    RoundBounds(i, u, q, bHi, bLo, hi, lo, product);
  }

  lemma Nothing(b: nat)
    ensures Times(0, b) == 0
  {
  }

  lemma SmallProduct(x: word, y: word)
    ensures 0 <= Times(x, y) < TWO_32 * TWO_32
  {
    if x > 0 && y > 0 {
      Product(x, y, TWO_32 - 1, TWO_32 - 1);
    }
  }

  lemma ShiftedProduct(y: word)
    ensures 0 <= Times(y, TWO_32) < TWO_32 * TWO_32
  {
  }

  lemma Start(a: int32, b: int32)
    ensures InRound(0, AsWord(a), TWO_32, 0, AsWord(b), 0, 0, AsWord(a) * AsWord(b))
  {
    hide AsWord, Pow2;
    Pow2_32();
    SmallProduct(AsWord(a), AsWord(b));
    ShiftedProduct(AsWord(b));
  }

  lemma Halves(k: nat)
    requires k > 0
    ensures Pow2(k) == 2 * Pow2(k - 1) && Pow2(0) == 1
  {
  }

  /** The high word as an `int` carries the sign of the double word. */
  lemma SignedWide(hi: word, lo: word)
    ensures AsInt(hi) * TWO_32 + AsWord(AsInt(lo)) == if Wide(hi, lo) < TWO_32 * TWO_32 / 2 then Wide(hi, lo) else Wide(hi, lo) - TWO_32 * TWO_32
    ensures AsWord(AsInt(hi)) == hi && AsWord(AsInt(lo)) == lo
  {
  }

  lemma SignedProduct(a: int, b: int)
    ensures (-a) * b == -(a * b) && a * (-b) == -(a * b) && (-a) * (-b) == a * b
  {
  }

  lemma AbsProduct(a: int32, b: int32)
    requires a != 0 && b != 0
    ensures a * b == if (a < 0) == (b < 0) then Abs(a) * Abs(b) else -(Abs(a) * Abs(b))
    ensures 0 < Abs(a) * Abs(b) < TWO_32 * TWO_32 / 2
  {
    Product(Abs(a), Abs(b), TWO_32 / 2, TWO_32 / 2);
    var x: int, y: int := Abs(a), Abs(b);
    SignedProduct(x, y);
    assert a == (if a < 0 then -x else x) && b == (if b < 0 then -y else y);
  }

  lemma ZeroProduct(a: int32, b: int32)
    requires a == 0 || b == 0
    ensures AsWord(0) == Wide(0, 0) == a * b == AsWord(a) * AsWord(b) == 0
  {
  }

  /** `Mult`: the high and the low word hold the exact product, for all operands. */
  method Mult(a0: int32, b0: int32, signedArith: bool) returns (hiOut: int32, loOut: int32)
    ensures signedArith ==> hiOut * TWO_32 + AsWord(loOut) == a0 * b0
    ensures !signedArith ==> Wide(AsWord(hiOut), AsWord(loOut)) == AsWord(a0) * AsWord(b0)
  {
    hide Wide, Negated, AsWord, AsInt, Abs;
    if a0 == 0 || b0 == 0 {
      ZeroProduct(a0, b0);
      return 0, 0;
    }
    AbsProduct(a0, b0);
    Magnitude(a0);
    Magnitude(b0);
    var a, b, negative := a0, b0, false;
    if signedArith {
      if a < 0 {
        negative := !negative;
        a := Negated(a);
      }
      if b < 0 {
        negative := !negative;
        b := Negated(b);
      }
    }
    var hi, lo := MultiplyUnsigned(a, b);
    if negative {
      Complement(hi, lo);
      hi := TWO_32 - 1 - hi;
      lo := TWO_32 - 1 - lo;
      lo := Wrap(lo + 1);
      if lo == 0 {
        hi := Wrap(hi + 1);
      }
    }
    SignedWide(hi, lo);
    hiOut, loOut := AsInt(hi), AsInt(lo);
  }
}
