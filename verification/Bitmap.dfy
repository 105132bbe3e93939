/** The packed bitmap of lib/bitmap.cc: bits stored 32 to a word. */
module Bitmaps {

  import opened Words

  function NumWords(numBits: nat): (n: nat)
    ensures numBits <= 32 * n < numBits + 32
  {
    numBits / 32 + (if numBits % 32 > 0 then 1 else 0)
  }

  /** The bits that a sequence of words stands for. */
  function BitsOfWords(ws: seq<word>, numBits: nat): (bits: seq<bool>)
    requires numBits <= 32 * |ws|
    ensures |bits| == numBits
  {
    seq(numBits, i requires 0 <= i < numBits => Bit(ws[i / 32], i % 32))
  }

  lemma SetBitOfWords(ws: seq<word>, numBits: nat, which: nat)
    requires numBits <= 32 * |ws| && which < numBits
    ensures BitsOfWords(ws[which / 32 := WordOr(ws[which / 32], Mask(which % 32))], numBits)
         == BitsOfWords(ws, numBits)[which := true]
  {
    forall j | 0 <= j < 32
      ensures Bit(WordOr(ws[which / 32], Mask(which % 32)), j) == (j == which % 32 || Bit(ws[which / 32], j))
    {
      SetMask(ws[which / 32], which % 32, j);
    }
  }

  lemma ClearBitOfWords(ws: seq<word>, numBits: nat, which: nat)
    requires numBits <= 32 * |ws| && which < numBits
    ensures BitsOfWords(ws[which / 32 := WordAnd(ws[which / 32], WordNot(Mask(which % 32)))], numBits)
         == BitsOfWords(ws, numBits)[which := false]
  {
    forall j | 0 <= j < 32
      ensures Bit(WordAnd(ws[which / 32], WordNot(Mask(which % 32))), j) == (j != which % 32 && Bit(ws[which / 32], j))
    {
      ClearMask(ws[which / 32], which % 32, j);
    }
  }

  function CountClear(bits: seq<bool>): (n: nat)
    ensures n <= |bits|
  {
    if bits == [] then 0
    else CountClear(bits[..|bits| - 1]) + (if bits[|bits| - 1] then 0 else 1)
  }

  /** Taking a clear bit uses up exactly one of the clear bits. */
  lemma {:induction false} CountClearSet(bits: seq<bool>, k: nat)
    requires k < |bits| && !bits[k]
    ensures CountClear(bits[k := true]) == CountClear(bits) - 1
  {
    var n := |bits| - 1;
    if k == n {
      assert bits[k := true][..n] == bits[..n];
    } else {
      assert bits[k := true][..n] == bits[..n][k := true];
      CountClearSet(bits[..n], k);
    }
  }

  lemma {:induction false} AllClear(bits: seq<bool>)
    requires forall i :: 0 <= i < |bits| ==> !bits[i]
    ensures CountClear(bits) == |bits|
  {
    if bits != [] {
      AllClear(bits[..|bits| - 1]);
    }
  }

  /** There is a clear bit exactly when the count is positive. */
  lemma {:induction false} CountClearZero(bits: seq<bool>)
    ensures CountClear(bits) == 0 <==> forall i :: 0 <= i < |bits| ==> bits[i]
  {
    if bits != [] {
      var n := |bits| - 1;
      CountClearZero(bits[..n]);
      assert forall i :: 0 <= i < n ==> bits[..n][i] == bits[i];
    }
  }

  class Bitmap {
    const numBits: nat
    const words: array<word>

    ghost predicate Valid()
      reads this
    {
      numBits > 0 && words.Length == NumWords(numBits)
    }

    ghost function Bits(): (bits: seq<bool>)
      requires Valid()
      reads this, words
      ensures |bits| == numBits
    {
      BitsOfWords(words[..], numBits)
    }

    constructor (numItems: nat)
      requires numItems > 0
      ensures Valid() && fresh(words) && numBits == numItems
      ensures Bits() == seq(numItems, _ => false)
    {
      numBits := numItems;
      words := new word[NumWords(numItems)];
      new;
      var i := 0;
      while i < words.Length
        invariant 0 <= i <= words.Length
        invariant forall k :: 0 <= k < i ==> words[k] == 0
      {
        words[i] := 0;
        i := i + 1;
      }
      forall k | 0 <= k < 32 ensures !Bit(0, k) { BitZero(k); }
      assert Bits() == seq(numItems, _ => false);
      i := 0;
      while i < numBits
        invariant 0 <= i <= numBits
        invariant Bits() == seq(numItems, _ => false)
      {
        Clear(i);
        assert Bits() == seq(numItems, _ => false);
        i := i + 1;
      }
    }

    method Mark(which: int)
      requires Valid() && 0 <= which < numBits
      modifies words
      ensures Bits() == old(Bits())[which := true]
    {
      var w, k := which / 32, which % 32;
      SetBitOfWords(words[..], numBits, which);
      words[w] := WordOr(words[w], Mask(k));
      assert words[..] == old(words[..])[w := WordOr(old(words[w]), Mask(k))];
    }

    method Clear(which: int)
      requires Valid() && 0 <= which < numBits
      modifies words
      ensures Bits() == old(Bits())[which := false]
    {
      var w, k := which / 32, which % 32;
      ClearBitOfWords(words[..], numBits, which);
      words[w] := WordAnd(words[w], WordNot(Mask(k)));
      assert words[..] == old(words[..])[w := WordAnd(old(words[w]), WordNot(Mask(k)))];
    }

    method Test(which: int) returns (marked: bool)
      requires Valid() && 0 <= which < numBits
      ensures marked == Bits()[which]
    {
      marked := WordAnd(words[which / 32], Mask(which % 32)) != 0;
      TestMask(words[which / 32], which % 32);
    }

    /** Takes the lowest clear bit, or reports -1 exactly when there is none. */
    method FindAndSet() returns (found: int)
      requires Valid()
      modifies words
      ensures -1 <= found < numBits
      ensures found == -1 <==> CountClear(old(Bits())) == 0
      ensures found == -1 ==> Bits() == old(Bits())
      ensures found >= 0 ==> !old(Bits())[found] && Bits() == old(Bits())[found := true]
      ensures found >= 0 ==> forall i :: 0 <= i < found ==> old(Bits())[i]
    {
      CountClearZero(Bits());
      var i := 0;
      while i < numBits
        invariant 0 <= i <= numBits
        invariant Bits() == old(Bits())
        invariant forall k :: 0 <= k < i ==> old(Bits())[k]
      {
        var t := Test(i);
        if !t {
          Mark(i);
          return i;
        }
        i := i + 1;
      }
      return -1;
    }

    method NumClear() returns (count: nat)
      requires Valid()
      ensures count == CountClear(Bits())
    {
      count := 0;
      var i := 0;
      while i < numBits
        invariant 0 <= i <= numBits
        invariant count == CountClear(Bits()[..i])
      {
        var t := Test(i);
        assert Bits()[..i + 1][..i] == Bits()[..i];
        if !t {
          count := count + 1;
        }
        i := i + 1;
      }
      assert Bits()[..numBits] == Bits();
    }
  }
}
