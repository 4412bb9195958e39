/** The bit buffer of explode: NEEDBITS without an end-of-file check.

  Past the end NEXTBYTE returns EOF, which is -1, and OR-ing it in sets every bit from there
  up, so the stream reads as ones for ever.  Codes are looked up by the complement of the
  buffer, that is, in the stream with every bit flipped. */
module OnesReader {
  import opened Bits
  import opened BitStream

  function BitOnes(input: seq<Byte>, i: nat): (r: nat)
    ensures r < 2
  {
    if i / 8 < |input| then BitAt(input, i) else 1
  }

  /** A plain field of `n` bits at `p`, first bit least significant. */
  function PeekOnes(input: seq<Byte>, p: nat, n: nat): (r: nat)
    ensures r < Pow2(n)
    decreases n
  {
    if n == 0 then 0 else BitOnes(input, p) + 2 * PeekOnes(input, p + 1, n - 1)
  }

  /** The stream with every bit flipped; past its end it reads as zeros. */
  function Flip(input: seq<Byte>): (r: seq<Byte>)
    ensures |r| == |input|
  {
    seq(|input|, i requires 0 <= i < |input| => 255 - input[i])
  }

  /** `~x & ((1 << n) - 1)` */
  function NotLow(n: nat, x: nat): (r: nat)
    ensures r < Pow2(n)
    decreases n
  {
    if n == 0 then 0 else 1 - x % 2 + 2 * NotLow(n - 1, x / 2)
  }

  // ----- flipping bits

  lemma {:induction false} NotBit(x: nat, n: nat, i: nat)
    requires i < n && x < Pow2(n)
    ensures Shr(Pow2(n) - 1 - x, i) % 2 == 1 - Shr(x, i) % 2
    decreases n
  {
    if i > 0 {
      assert (Pow2(n) - 1 - x) / 2 == Pow2(n - 1) - 1 - x / 2;
      NotBit(x / 2, n - 1, i - 1);
    }
  }

  lemma FlipBit(input: seq<Byte>, i: nat)
    ensures BitAt(Flip(input), i) == 1 - BitOnes(input, i)
  {
    if i / 8 < |input| {
      Pow2Of8();
      hide Pow2, Shr;
      NotBit(input[i / 8], 8, i % 8);
    }
  }

  lemma {:induction false} NotLowPeek(input: seq<Byte>, p: nat, n: nat, x: nat)
    requires Low(n, x) == PeekOnes(input, p, n)
    ensures NotLow(n, x) == Peek(Flip(input), p, n)
    decreases n
  {
    if n > 0 {
      FlipBit(input, p);
      hide BitOnes, BitAt, Flip;
      NotLowPeek(input, p + 1, n - 1, x / 2);
    }
  }

  lemma {:induction false} OnesLow(input: seq<Byte>, p: nat, n: nat, m: nat)
    requires m <= n
    ensures Low(m, PeekOnes(input, p, n)) == PeekOnes(input, p, m)
    decreases m
  {
    hide BitOnes;
    if m > 0 {
      OnesLow(input, p + 1, n - 1, m - 1);
    }
  }

  lemma {:induction false} OnesShr(input: seq<Byte>, p: nat, n: nat, m: nat)
    requires m <= n
    ensures Shr(PeekOnes(input, p, n), m) == PeekOnes(input, p + m, n - m)
    decreases m
  {
    hide BitOnes;
    if m > 0 {
      OnesShr(input, p + 1, n - 1, m - 1);
    }
  }

  lemma OnesUnfold(input: seq<Byte>, p: nat, n: nat)
    ensures PeekOnes(input, p, n) == if n == 0 then 0 else BitOnes(input, p) + 2 * PeekOnes(input, p + 1, n - 1)
  {
  }

  lemma {:induction false} OnesSplit(input: seq<Byte>, p: nat, n: nat, m: nat)
    ensures PeekOnes(input, p, n + m) == PeekOnes(input, p, n) + Pow2(n) * PeekOnes(input, p + n, m)
    decreases n
  {
    hide *;
    OnesUnfold(input, p, n + m);
    OnesUnfold(input, p, n);
    Pow2Unfold(n);
    if n > 0 {
      OnesSplit(input, p + 1, n - 1, m);
      ShiftSum(BitOnes(input, p), PeekOnes(input, p + 1, n - 1), Pow2(n - 1), PeekOnes(input, p + n, m));
    }
  }

  lemma {:induction false} OnesInside(input: seq<Byte>, p: nat, n: nat)
    requires p + n <= BitLen(input)
    ensures PeekOnes(input, p, n) == Peek(input, p, n)
    decreases n
  {
    if n > 0 {
      OnesInside(input, p + 1, n - 1);
    }
  }

  lemma {:induction false} OnesOutside(input: seq<Byte>, p: nat, n: nat)
    requires p >= BitLen(input)
    ensures PeekOnes(input, p, n) == Pow2(n) - 1
    decreases n
  {
    if n > 0 {
      OnesOutside(input, p + 1, n - 1);
    }
  }

  lemma {:induction false} LowOfOnes(n: nat, m: nat)
    requires n <= m
    ensures Low(n, Pow2(m) - 1) == Pow2(n) - 1
    decreases n
  {
    if n > 0 {
      assert (Pow2(m) - 1) / 2 == Pow2(m - 1) - 1;
      LowOfOnes(n - 1, m - 1);
    }
  }

  // ----- the bit buffer

  const UlgBits: nat := 32

  class OnesReader {
    const input: seq<Byte>
    var next: nat   // calls of NEXTBYTE, those that returned EOF included
    var bb: nat     // bit buffer
    var bk: nat     // bits in bit buffer

    ghost function Pos(): nat
      requires bk <= 8 * next
      reads this
    {
      8 * next - bk
    }

    /** The low `bk` bits of the buffer come next.  Above them there are zeros, until EOF has
        been OR-ed in. */
    ghost predicate Valid()
      reads this
    {
      && bk <= 8 * next && bk <= UlgBits
      && Low(bk, bb) == PeekOnes(input, Pos(), bk)
      && (next <= |input| ==> bb < Pow2(bk))
    }

    constructor (input: seq<Byte>)
      ensures Valid() && this.input == input && Pos() == 0 && next == 0 && bk == 0
    {
      this.input := input;
      next, bb, bk := 0, 0, 0;
    }

    /** `NEXTBYTE`, with an empty bit buffer: a byte, or -1 past the end. */
    method NextByte() returns (c: int)
      requires Valid() && bk == 0
      modifies this
      ensures Valid() && bk == 0 && next == old(next) + 1
      ensures c == if old(next) < |input| then input[old(next)] else -1
    {
      if next < |input| {
        c := input[next];
      } else {
        c := -1;
      }
      next := next + 1;
      bb := 0;  // the buffer is a local variable that does not exist yet
    }

    /** One byte into the buffer: `b |= ((ulg)NEXTBYTE) << k; k += 8`. */
    method Refill()
      requires Valid() && bk + 8 <= UlgBits
      modifies this
      ensures Valid() && Pos() == old(Pos()) && bk == old(bk) + 8
    {
      hide Low, Shr, Pow2, PeekOnes, Peek;
      ghost var p, k := Pos(), bk;
      if next < |input| {
        AppendByte(input, p, k, next, bb, input[next], bb + input[next] * Pow2(bk), 8);
        bb := bb + input[next] * Pow2(bk);
      } else {
        AppendEof(input, p, k, bb, 8);
        Pow2Mono(k, UlgBits);
        bb := Low(bk, bb) + (Pow2(UlgBits) - Pow2(bk));
      }
      next := next + 1;
      bk := bk + 8;
    }

    /** `NEEDBITS(n)`. */
    method NeedBits(n: nat)
      requires Valid() && n <= UlgBits - 8
      modifies this
      ensures Valid() && Pos() == old(Pos()) && n <= bk
    {
      while bk < n
        invariant Valid() && Pos() == old(Pos())
        decreases n - bk
      {
        Refill();
      }
    }

    /** `DUMPBITS(n)`. */
    method DumpBits(n: nat)
      requires Valid() && n <= bk
      modifies this
      ensures Valid() && Pos() == old(Pos()) + n && bk == old(bk) - n && next == old(next)
    {
      hide Low, Shr, Pow2, PeekOnes, Peek;
      OnesShr(input, Pos(), bk, n);
      ShrLow(n, bk - n, bb);
      if next <= |input| {
        ShrMono(bb, n, bk - n);
      }
      bb := Shr(bb, n);
      bk := bk - n;
    }

    /** `b & mask_bits[n]`. */
    method Masked(n: nat) returns (v: nat)
      requires Valid() && n <= bk
      ensures v == PeekOnes(input, Pos(), n)
    {
      hide Low, Shr, Pow2, PeekOnes, Peek;
      LowLow(n, bk, bb);
      OnesLow(input, Pos(), bk, n);
      v := Low(n, bb);
    }

    /** `~b & mask_bits[n]`. */
    method Flipped(n: nat) returns (v: nat)
      requires Valid() && n <= bk
      ensures v == Peek(Flip(input), Pos(), n)
    {
      hide Low, Shr, Pow2, PeekOnes, Peek, Flip;
      LowLow(n, bk, bb);
      OnesLow(input, Pos(), bk, n);
      NotLowPeek(input, Pos(), n, bb);
      v := NotLow(n, bb);
    }

    /** A plain field of the stream. */
    method ReadBits(n: nat) returns (v: nat)
      requires Valid() && n <= UlgBits - 8
      modifies this
      ensures Valid() && v == PeekOnes(input, old(Pos()), n) && Pos() == old(Pos()) + n
    {
      hide Low, Pow2, PeekOnes;
      NeedBits(n);
      v := Masked(n);
      DumpBits(n);
    }
  }

  lemma AppendByte(input: seq<Byte>, p: nat, k: nat, q: nat, x: nat, b: nat, y: nat, eight: nat)
    requires eight == 8 && q < |input| && p + k == 8 * q && b == input[q]
    requires x < Pow2(k) && Low(k, x) == PeekOnes(input, p, k) && y == x + b * Pow2(k)
    ensures y < Pow2(k + eight) && Low(k + eight, y) == PeekOnes(input, p, k + eight)
  {
    Pow2Of8();
    hide Pow2, Low, Shr, PeekOnes, Peek;
    LowSmall(k, x);
    OnesInside(input, p, k);
    OnesInside(input, p, k + eight);
    PeekAppendByte(input, p, k, q, eight);
    Pow2Add(k, eight);
    MulMono(b + 1, 256, Pow2(k));
    Distribute(b, 1, Pow2(k));
    LowSmall(k + eight, y);
  }

  lemma AppendEof(input: seq<Byte>, p: nat, k: nat, x: nat, eight: nat)
    requires eight == 8 && k + eight <= UlgBits && p + k >= BitLen(input)
    requires Low(k, x) == PeekOnes(input, p, k)
    ensures Pow2(k) <= Pow2(UlgBits)
    ensures Low(k + eight, Low(k, x) + (Pow2(UlgBits) - Pow2(k))) == PeekOnes(input, p, k + eight)
  {
    hide Pow2, Low, Shr, PeekOnes, Peek;
    var m := UlgBits - k;
    Pow2Add(k, m);
    Pow2Mono(k, UlgBits);
    var y := Low(k, x) + (Pow2(UlgBits) - Pow2(k));
    assert y == Low(k, x) + Pow2(k) * (Pow2(m) - 1) by {
      MulLess(Pow2(k), Pow2(m));
    }
    Join(k, Low(k, x), Pow2(m) - 1);
    LowSplit(k, eight, y);
    LowOfOnes(eight, m);
    OnesSplit(input, p, k, eight);
    OnesOutside(input, p + k, eight);
  }

  lemma MulLess(a: int, b: int)
    ensures a * (b - 1) == a * b - a
  {
  }
}
