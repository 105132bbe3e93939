/** C's bitwise operators on unsigned words, defined digit by digit. */
module Words {

  const TWO_32 := 0x1_0000_0000

  /** A C `unsigned int`. */
  type word = x: int | 0 <= x < TWO_32

  function Pow2(n: nat): (p: nat)
    ensures p >= 1
  {
    if n == 0 then 1 else 2 * Pow2(n - 1)
  }

  /** Bit `k` of `x`, counting from the least significant. */
  predicate Bit(x: nat, k: nat) {
    if k == 0 then x % 2 == 1 else Bit(x / 2, k - 1)
  }

  function Or(n: nat, x: nat, y: nat): (r: nat)
    ensures r < Pow2(n)
  {
    if n == 0 then 0
    else (if x % 2 == 1 || y % 2 == 1 then 1 else 0) + 2 * Or(n - 1, x / 2, y / 2)
  }

  function And(n: nat, x: nat, y: nat): (r: nat)
    ensures r < Pow2(n)
  {
    if n == 0 then 0
    else (if x % 2 == 1 && y % 2 == 1 then 1 else 0) + 2 * And(n - 1, x / 2, y / 2)
  }

  function Not(n: nat, x: nat): (r: nat)
    ensures r < Pow2(n)
  {
    if n == 0 then 0
    else (if x % 2 == 1 then 0 else 1) + 2 * Not(n - 1, x / 2)
  }

  lemma {:induction false} BitOr(n: nat, x: nat, y: nat, k: nat)
    requires k < n
    ensures Bit(Or(n, x, y), k) == (Bit(x, k) || Bit(y, k))
  {
    if k > 0 {
      BitOr(n - 1, x / 2, y / 2, k - 1);
      assert Or(n, x, y) / 2 == Or(n - 1, x / 2, y / 2);
    }
  }

  lemma {:induction false} BitAnd(n: nat, x: nat, y: nat, k: nat)
    requires k < n
    ensures Bit(And(n, x, y), k) == (Bit(x, k) && Bit(y, k))
  {
    if k > 0 {
      BitAnd(n - 1, x / 2, y / 2, k - 1);
      assert And(n, x, y) / 2 == And(n - 1, x / 2, y / 2);
    }
  }

  lemma {:induction false} BitNot(n: nat, x: nat, k: nat)
    requires k < n
    ensures Bit(Not(n, x), k) == !Bit(x, k)
  {
    if k > 0 {
      BitNot(n - 1, x / 2, k - 1);
      assert Not(n, x) / 2 == Not(n - 1, x / 2);
    }
  }

  /** `1 << k` has exactly one bit set. */
  lemma {:induction false} BitPow2(k: nat, j: nat)
    ensures Bit(Pow2(k), j) == (j == k)
  {
    if k == 0 {
      if j > 0 {
        BitZero(j - 1);
        assert Pow2(0) / 2 == 0;
      }
    } else if j > 0 {
      BitPow2(k - 1, j - 1);
      assert Pow2(k) / 2 == Pow2(k - 1);
    }
  }

  lemma {:induction false} BitZero(k: nat)
    ensures !Bit(0, k)
  {
    if k > 0 {
      BitZero(k - 1);
      assert 0 / 2 == 0;
    }
  }

  /** A nonzero value of `n` bits has a bit set. */
  lemma {:induction false} SomeBit(n: nat, x: nat) returns (k: nat)
    requires 0 < x < Pow2(n)
    ensures k < n && Bit(x, k)
  {
    if x % 2 == 1 {
      k := 0;
    } else {
      k := SomeBit(n - 1, x / 2);
      k := k + 1;
    }
  }

  lemma DoubleProduct(p: nat, y: nat)
    ensures 2 * p * y == 2 * (p * y)
  {
  }

  lemma Pow2_32()
    ensures Pow2(32) == 0x1_0000_0000
  {
    assert Pow2(8) == 256;
    assert Pow2(16) == 65536;
    assert Pow2(24) == 16777216;
  }

  /** `1 << k` for a shift within a word. */
  function Mask(k: nat): word
    requires k < 32
  {
    Pow2_32();
    Pow2Mono(k, 32);
    Pow2(k)
  }

  lemma {:induction false} Pow2Mono(a: nat, b: nat)
    requires a < b
    ensures Pow2(a) < Pow2(b)
  {
    if a < b - 1 {
      Pow2Mono(a, b - 1);
    }
  }

  function WordOr(x: word, y: word): word { Pow2_32(); Or(32, x, y) }
  function WordAnd(x: word, y: word): word { Pow2_32(); And(32, x, y) }
  function WordNot(x: word): word { Pow2_32(); Not(32, x) }

  /** The test `w & (1 << k)` reads bit `k`. */
  lemma TestMask(w: word, k: nat)
    requires k < 32
    ensures WordAnd(w, Mask(k)) != 0 <==> Bit(w, k)
  {
    var a := WordAnd(w, Mask(k));
    Pow2_32();
    if a == 0 {
      BitZero(k);
      BitAnd(32, w, Mask(k), k);
      BitPow2(k, k);
    } else {
      var j := SomeBit(32, a);
      BitAnd(32, w, Mask(k), j);
      BitPow2(k, j);
    }
  }

  /** `w | (1 << k)` sets bit `k` and touches no other. */
  lemma SetMask(w: word, k: nat, j: nat)
    requires k < 32 && j < 32
    ensures Bit(WordOr(w, Mask(k)), j) == (j == k || Bit(w, j))
  {
    BitOr(32, w, Mask(k), j);
    BitPow2(k, j);
  }

  /** `w & ~(1 << k)` clears bit `k` and touches no other. */
  lemma ClearMask(w: word, k: nat, j: nat)
    requires k < 32 && j < 32
    ensures Bit(WordAnd(w, WordNot(Mask(k))), j) == (j != k && Bit(w, j))
  {
    BitAnd(32, w, WordNot(Mask(k)), j);
    BitNot(32, Mask(k), j);
    BitPow2(k, j);
  }
}
