/** Byte-level layout of C integers, as they appear in memory and in disk sectors. */
module Bytes {
  import opened Words

  newtype byte = x: int | 0 <= x < 256

  /** A C `int`: 32 bits, two's complement. */
  type int32 = x: int | -0x8000_0000 <= x < 0x8000_0000

  /** `c` with the bytes from `position` on replaced by `src`. */
  function Splice(c: seq<byte>, position: int, src: seq<byte>): (r: seq<byte>)
    requires 0 <= position && position + |src| <= |c|
    ensures |r| == |c|
  {
    c[..position] + src + c[position + |src|..]
  }

  /** The four little-endian bytes of a word. */
  function WordBytes(v: word): (b: seq<byte>)
    ensures |b| == 4
  {
    [(v % 256) as byte, (v / 256 % 256) as byte, (v / 65536 % 256) as byte, (v / 16777216) as byte]
  }

  function BytesWord(b: seq<byte>): word
    requires |b| == 4
  {
    b[0] as int + 256 * b[1] as int + 65536 * b[2] as int + 16777216 * b[3] as int
  }

  lemma WordRoundTrip(v: word)
    ensures BytesWord(WordBytes(v)) == v
  {
    var a := v / 256;
    var b := a / 256;
    var c := b / 256;
    Quotients(v, a, b, c);
  }

  lemma Quotients(v: nat, a: nat, b: nat, c: nat)
    requires a == v / 256 && b == a / 256 && c == b / 256
    ensures v / 65536 == b && v / 16777216 == c
  {
    assert v == 65536 * b + (256 * (a % 256) + v % 256);
    assert v == 16777216 * c + (65536 * (b % 256) + 256 * (a % 256) + v % 256);
  }

  /** An array of words, laid out one after the other. */
  function WordsBytes(ws: seq<word>): (b: seq<byte>)
    ensures |b| == 4 * |ws|
  {
    seq(4 * |ws|, p requires 0 <= p < 4 * |ws| => WordBytes(ws[p / 4])[p % 4])
  }

  function BytesWords(b: seq<byte>, n: nat): (ws: seq<word>)
    requires |b| == 4 * n
    ensures |ws| == n
  {
    seq(n, i requires 0 <= i < n => BytesWord(b[4 * i..4 * i + 4]))
  }

  lemma WordsBytesAt(ws: seq<word>, i: nat)
    requires i < |ws|
    ensures WordsBytes(ws)[4 * i..4 * i + 4] == WordBytes(ws[i])
  {
  }

  lemma WordsRoundTrip(ws: seq<word>)
    ensures BytesWords(WordsBytes(ws), |ws|) == ws
  {
    forall i | 0 <= i < |ws|
      ensures BytesWords(WordsBytes(ws), |ws|)[i] == ws[i]
    {
      WordsBytesAt(ws, i);
      WordRoundTrip(ws[i]);
    }
  }

  /** Two's complement: the word that represents a C int, and back. */
  function AsWord(v: int32): word { v % 0x1_0000_0000 }

  function AsInt(w: word): int32 {
    if w < 0x8000_0000 then w else w - 0x1_0000_0000
  }

  lemma IntRoundTrip(v: int32)
    ensures AsInt(AsWord(v)) == v
  {
  }

  function AsWords(vs: seq<int32>): (ws: seq<word>)
    ensures |ws| == |vs|
  {
    seq(|vs|, i requires 0 <= i < |vs| => AsWord(vs[i]))
  }

  function AsInts(ws: seq<word>): (vs: seq<int32>)
    ensures |vs| == |ws|
  {
    seq(|ws|, i requires 0 <= i < |ws| => AsInt(ws[i]))
  }

  lemma IntsThroughWords(vs: seq<int32>)
    ensures AsInts(AsWords(vs)) == vs
  {
  }
}
