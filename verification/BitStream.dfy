/** A compressed member as a sequence of bits: bytes in order, each one lowest bit first
  (section 3.1.1 of RFC 1951).  Past the last byte the stream reads as zeros; whether a
  bit is really there is always asked separately, with `BitLen`. */
module BitStream {
  import opened Bits

  /** Number of bits in the stream. */
  function BitLen(input: seq<Byte>): nat { 8 * |input| }

  /** Number of bytes that the first `p` bits are in. */
  function ByteBoundary(p: nat): nat { (p + 7) / 8 }

  function Max(a: nat, b: nat): nat { if a < b then b else a }

  function BitAt(input: seq<Byte>, i: nat): (r: nat)
    ensures r < 2
  {
    if i / 8 < |input| then Shr(input[i / 8], i % 8) % 2 else 0
  }

  /** `n` bits from position `p`, first bit least significant: how plain fields are read. */
  function Peek(input: seq<Byte>, p: nat, n: nat): (r: nat)
    ensures r < Pow2(n)
    decreases n
  {
    if n == 0 then 0 else BitAt(input, p) + 2 * Peek(input, p + 1, n - 1)
  }

  lemma PeekBound(input: seq<Byte>, p: nat, n: nat)
    ensures Peek(input, p, n) < Pow2(n)
  {
  }

  /** `n` bits from position `p`, first bit most significant: how Huffman codes are read. */
  function Msb(input: seq<Byte>, p: nat, n: nat): nat {
    if n == 0 then 0 else 2 * Msb(input, p, n - 1) + BitAt(input, p + n - 1)
  }

  lemma {:induction false} PeekLow(input: seq<Byte>, p: nat, n: nat, m: nat)
    requires m <= n
    ensures Low(m, Peek(input, p, n)) == Peek(input, p, m)
    decreases m
  {
    if m > 0 {
      PeekLow(input, p + 1, n - 1, m - 1);
    }
  }

  lemma {:induction false} PeekShr(input: seq<Byte>, p: nat, n: nat, m: nat)
    requires m <= n
    ensures Shr(Peek(input, p, n), m) == Peek(input, p + m, n - m)
    decreases m
  {
    if m > 0 {
      PeekShr(input, p + 1, n - 1, m - 1);
    }
  }

  lemma ShiftSum(a: int, b: int, c: int, d: int)
    ensures a + 2 * (b + c * d) == a + 2 * b + (2 * c) * d
  {
  }

  lemma PeekUnfold(input: seq<Byte>, p: nat, n: nat)
    ensures Peek(input, p, n) == if n == 0 then 0 else BitAt(input, p) + 2 * Peek(input, p + 1, n - 1)
  {
  }

  lemma {:induction false} PeekSplit(input: seq<Byte>, p: nat, n: nat, m: nat)
    ensures Peek(input, p, n + m) == Peek(input, p, n) + Pow2(n) * Peek(input, p + n, m)
    decreases n
  {
    hide *;
    PeekUnfold(input, p, n + m);
    PeekUnfold(input, p, n);
    Pow2Unfold(n);
    if n > 0 {
      PeekSplit(input, p + 1, n - 1, m);
      ShiftSum(BitAt(input, p), Peek(input, p + 1, n - 1), Pow2(n - 1), Peek(input, p + n, m));
    }
  }

  lemma PeekLast(input: seq<Byte>, p: nat, n: nat)
    ensures Bit(Peek(input, p, n + 1), n) <==> BitAt(input, p + n) == 1
  {
    PeekShr(input, p, n + 1, n);
    PeekOne(input, p + n);
  }

  lemma PeekOne(input: seq<Byte>, p: nat)
    ensures Peek(input, p, 1) == BitAt(input, p)
  {
    assert Peek(input, p + 1, 0) == 0;
  }

  /** Reading most-significant-bit first is bit reversal of reading least-significant first. */
  lemma {:induction false} MsbIsRev(input: seq<Byte>, p: nat, n: nat)
    ensures Msb(input, p, n) == Rev(n, Peek(input, p, n))
    decreases n
  {
    if n > 0 {
      var m := n - 1;
      MsbIsRev(input, p, m);
      RevTop(m, Peek(input, p, m + 1));
      PeekLow(input, p, m + 1, m);
      RevLow(m, m, Peek(input, p, m + 1));
      PeekLast(input, p, m);
    }
  }

  lemma {:induction false} PeekInByte(input: seq<Byte>, q: nat, a: nat, n: nat)
    requires q < |input| && a + n <= 8
    ensures Peek(input, 8 * q + a, n) == Low(n, Shr(input[q], a))
    decreases n
  {
    if n > 0 {
      PeekInByte(input, q, a + 1, n - 1);
      ShrShr(input[q], a, 1);
      assert (8 * q + a) / 8 == q && (8 * q + a) % 8 == a;
      assert Shr(input[q], a + 1) == Shr(Shr(input[q], a), 1) == Shr(Shr(input[q], a) / 2, 0);
    }
  }

  lemma Pow2Of8()
    ensures Pow2(8) == 256
  {
    assert Pow2(4) == 16;
    Pow2Add(4, 4);
  }

  /** Eight bits from a byte boundary are the byte. */
  lemma PeekByte(input: seq<Byte>, q: nat, eight: nat)
    requires eight == 8 && q < |input|
    ensures Peek(input, 8 * q, eight) == input[q]
  {
    hide *;
    ShrZero(input[q]);
    PeekInByte(input, q, 0, eight);
    Pow2Of8();
    LowSmall(eight, input[q]);
  }

  /** What `NEEDBITS` does to the bit buffer: a whole byte goes in above `k` good bits. */
  lemma PeekAppendByte(input: seq<Byte>, p: nat, k: nat, q: nat, eight: nat)
    requires eight == 8
    requires q < |input| && p + k == 8 * q
    ensures Peek(input, p, k + eight) == Peek(input, p, k) + Pow2(k) * input[q]
  {
    hide Peek, Shr, Low, Pow2;
    PeekSplit(input, p, k, eight);
    PeekByte(input, q, eight);
  }
}
