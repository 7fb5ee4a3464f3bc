/**
 * Big-endian 32-bit words in a byte stream and single-bit tests on
 * them, with integers standing for the unsigned machine words.
 */
module Words {
  import opened Common

  /** An unsigned 32-bit word. */
  type Word = w: int | 0 <= w < 0x1_0000_0000

  function Pow2(k: nat): (r: nat)
    ensures r >= 1
  {
    if k == 0 then 1 else 2 * Pow2(k - 1)
  }

  lemma {:induction false} Pow2Add(a: nat, b: nat)
    ensures Pow2(a + b) == Pow2(a) * Pow2(b)
    decreases a
  {
    if a > 0 {
      Pow2Add(a - 1, b);
      assert Pow2(a + b) == 2 * Pow2(a - 1 + b);
    }
  }

  /** The powers the frame layout uses. */
  lemma Pow2Values()
    ensures Pow2(4) == 0x10 && Pow2(12) == 0x1000 && Pow2(16) == 0x1_0000 && Pow2(20) == 0x10_0000
  {
    assert Pow2(2) == 4 by {
      assert Pow2(1) == 2;
    }
    assert Pow2(4) == 0x10 by {
      Pow2Add(2, 2);
    }
    assert Pow2(8) == 0x100 by {
      Pow2Add(4, 4);
    }
    assert Pow2(12) == 0x1000 by {
      Pow2Add(8, 4);
    }
    assert Pow2(16) == 0x1_0000 by {
      Pow2Add(8, 8);
    }
    Pow2Add(16, 4);
  }

  /** `w & (1 << k)` is non-zero. */
  function Bit(w: nat, k: nat): bool
    decreases k
  {
    if k == 0 then w % 2 == 1 else Bit(w / 2, k - 1)
  }

  /** Bits at and above position `j` of `low + 2^j * m` are the bits of `m`. */
  lemma {:induction false} BitAbove(low: nat, m: nat, j: nat, i: nat)
    requires low < Pow2(j)
    ensures Bit(low + Pow2(j) * m, j + i) == Bit(m, i)
    decreases j
  {
    if j > 0 {
      var half := Pow2(j - 1) * m;
      assert Pow2(j) * m == 2 * half;
      assert (low + Pow2(j) * m) / 2 == low / 2 + half;
      BitAbove(low / 2, m, j - 1, i);
    }
  }

  /** The number whose binary digits, least significant first, are `b`. */
  function FromBits(b: seq<bool>): (n: nat)
    ensures n < Pow2(|b|)
  {
    if b == [] then 0 else (if b[0] then 1 else 0) + 2 * FromBits(b[1..])
  }

  lemma {:induction false} BitOfFromBits(b: seq<bool>, i: nat)
    requires i < |b|
    ensures Bit(FromBits(b), i) == b[i]
    decreases i
  {
    if i > 0 {
      assert FromBits(b) / 2 == FromBits(b[1..]);
      BitOfFromBits(b[1..], i - 1);
    }
  }

  /** The big-endian word at word index `k` (`fromNetwork(p[k])`). */
  function WordAt(p: seq<Byte>, k: nat): Word
    requires 4 * k + 4 <= |p|
  {
    (p[4 * k] as int) * 0x100_0000 + (p[4 * k + 1] as int) * 0x1_0000
      + (p[4 * k + 2] as int) * 0x100 + p[4 * k + 3] as int
  }

  /** A word is the sum of its four base-256 digits. */
  lemma WordDigits(w: Word)
    ensures w / 0x100_0000 < 0x100
    ensures (w / 0x100_0000) * 0x100_0000 + ((w / 0x1_0000) % 0x100) * 0x1_0000
      + ((w / 0x100) % 0x100) * 0x100 + w % 0x100 == w
  {
    var q1 := w / 0x100;
    var q2 := q1 / 0x100;
    var q3 := q2 / 0x100;
    assert w == q1 * 0x100 + w % 0x100;
    assert q1 == q2 * 0x100 + q1 % 0x100;
    assert q2 == q3 * 0x100 + q2 % 0x100;
    assert q2 == w / 0x1_0000;
    assert q3 == w / 0x100_0000;
  }

  /** The four bytes of a word in network order. */
  function WordBytes(w: Word): (r: seq<Byte>)
    ensures |r| == 4
    ensures WordAt(r, 0) == w
  {
    WordDigits(w);
    [w / 0x100_0000, (w / 0x1_0000) % 0x100, (w / 0x100) % 0x100, w % 0x100]
  }

  /** A word is read the same after more bytes are appended. */
  lemma WordAtPrefix(a: seq<Byte>, b: seq<Byte>, k: nat)
    requires 4 * k + 4 <= |a|
    ensures WordAt(a + b, k) == WordAt(a, k)
  {
  }

  /** A word behind a whole number of words is read at the shifted index. */
  lemma WordAtShifted(a: seq<Byte>, b: seq<Byte>, k: nat)
    requires |a| % 4 == 0 && 4 * k + 4 <= |b|
    ensures WordAt(a + b, |a| / 4 + k) == WordAt(b, k)
  {
    var i := 4 * (|a| / 4 + k);
    assert i == |a| + 4 * k;
    assert (a + b)[i] == b[4 * k];
    assert (a + b)[i + 1] == b[4 * k + 1];
    assert (a + b)[i + 2] == b[4 * k + 2];
    assert (a + b)[i + 3] == b[4 * k + 3];
  }

  /** A sequence of words laid out in network order. */
  function WordsBytes(ws: seq<Word>): (r: seq<Byte>)
    ensures |r| == 4 * |ws|
  {
    if ws == [] then [] else WordBytes(ws[0]) + WordsBytes(ws[1..])
  }

  /** A laid-out word sequence, followed by anything, starts with the bytes of its first word. */
  lemma WordsBytesHead(ws: seq<Word>, rest: seq<Byte>)
    requires |ws| > 0
    ensures |WordsBytes(ws) + rest| >= 4 && (WordsBytes(ws) + rest)[..4] == WordBytes(ws[0])
  {
    assert WordsBytes(ws) + rest == WordBytes(ws[0]) + (WordsBytes(ws[1..]) + rest);
  }

  /** Word `i` of a laid-out word sequence reads back as `ws[i]`, whatever follows it. */
  lemma {:induction false} WordsBytesAt(ws: seq<Word>, rest: seq<Byte>, i: nat)
    requires i < |ws|
    ensures WordAt(WordsBytes(ws) + rest, i) == ws[i]
    decreases i
  {
    var head := WordBytes(ws[0]);
    assert WordsBytes(ws) + rest == head + (WordsBytes(ws[1..]) + rest);
    if i == 0 {
      WordAtPrefix(head, WordsBytes(ws[1..]) + rest, 0);
    } else {
      WordsBytesAt(ws[1..], rest, i - 1);
      WordAtShifted(head, WordsBytes(ws[1..]) + rest, i - 1);
    }
  }
}
