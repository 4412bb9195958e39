/** READBITS: the bit buffer of unshrink, which is filled as far as it goes whenever it runs
  short, and only reports the end of the file when not a single byte could be added. */
module EagerReader {
  import opened Bits
  import opened BitStream

  const RefillLimit: nat := 24  // 8 * (sizeof(bitbuf) - 1)

  /** How many of `total` bytes have been taken when the buffer, which had `t` of them and is at bit
      `p`, has been filled as far as it goes. */
  function Filled(total: nat, p: nat, t: nat): (r: nat)
    requires t <= total
    ensures t <= r <= total
    decreases total - t
  {
    if t < total && p <= 8 * t && 8 * t - p <= RefillLimit then Filled(total, p, t + 1) else t
  }

  /** The same after a field of `n` bits. */
  function TakenAfter(total: nat, p: nat, t: nat, n: nat): (r: nat)
    requires t <= total
    ensures t <= r <= total
  {
    if p + n <= 8 * t then t else Filled(total, p, t)
  }

  /** The field is the one that reports the end of the file. */
  predicate Ends(total: nat, p: nat, t: nat, n: nat)
    requires t <= total
  {
    p + n > 8 * t && Filled(total, p, t) == t
  }

  /** The end is not reported as long as there are bits enough, and surely if there are less than
      eight. */
  lemma EndsWhen(total: nat, p: nat, t: nat, n: nat)
    requires t <= total && 0 < n <= RefillLimit && (p <= 8 * t || t == total)
    ensures p + n <= 8 * total ==> !Ends(total, p, t, n)
    ensures p + n > 8 * total && p + 8 > 8 * total ==> Ends(total, p, t, n)
    ensures !Ends(total, p, t, n) ==> p < 8 * total
    ensures var t' := TakenAfter(total, p, t, n); p + n <= 8 * t' || t' == total
  {
    if p <= 8 * t {
      FilledIs(total, p, t);
    }
  }

  lemma {:induction false} FilledIs(total: nat, p: nat, t: nat)
    requires t <= total && p <= 8 * t
    ensures var r := Filled(total, p, t); 8 * r - p > RefillLimit || r == total
    decreases total - t
  {
    if t < total && 8 * t - p <= RefillLimit {
      FilledIs(total, p, t + 1);
    }
  }

  lemma {:induction false} PeekOutside(input: seq<Byte>, p: nat, n: nat)
    requires p >= BitLen(input)
    ensures Peek(input, p, n) == 0
    decreases n
  {
    if n > 0 {
      PeekOutside(input, p + 1, n - 1);
    }
  }

  /** Past the end of the stream there are only zeros. */
  lemma PeekPast(input: seq<Byte>, p: nat, k: nat, n: nat)
    requires k <= n && p + k == BitLen(input)
    ensures Peek(input, p, n) == Peek(input, p, k)
  {
    hide Peek;
    PeekSplit(input, p, k, n - k);
    PeekOutside(input, p + k, n - k);
  }

  class EagerReader {
    const input: seq<Byte>
    var next: nat      // bytes taken by NEXTBYTE
    var bitbuf: nat
    var bitsLeft: int  // negative once a field went past the end
    var zipeof: bool

    ghost function Pos(): nat
      requires bitsLeft <= 8 * next
      reads this
    {
      8 * next - bitsLeft
    }

    ghost predicate Valid()
      reads this
    {
      Core() && (zipeof ==> bitsLeft < 0)
    }

    ghost predicate Core()
      reads this
    {
      && next <= |input| && bitsLeft <= 8 * next
      && (bitsLeft >= 0 ==> bitbuf == Peek(input, Pos(), bitsLeft))
      && (bitsLeft < 0 ==> next == |input| && bitbuf == 0)
    }

    constructor (input: seq<Byte>)
      ensures Valid() && this.input == input && Pos() == 0 && next == 0 && !zipeof
    {
      this.input := input;
      next, bitbuf, bitsLeft, zipeof := 0, 0, 0, false;
    }

    /** Fill the bit buffer as far as it goes. */
    method Refill()
      requires Core()
      modifies this
      ensures Core() && Pos() == old(Pos())
      ensures bitsLeft < 0 || bitsLeft > RefillLimit || next == |input|
      ensures zipeof <==> next == old(next)
      ensures next == Filled(|input|, old(Pos()), old(next))
      ensures bitsLeft >= old(bitsLeft) && (next == old(next) ==> bitsLeft == old(bitsLeft))
    {
      hide Peek, Pow2, Shr, Low;
      ghost var p := Pos();
      var left, q, b := bitsLeft, next, bitbuf;
      while 0 <= left <= RefillLimit && q < |input|
        invariant unchanged(this)
        invariant next <= q <= |input| && bitsLeft <= left && 8 * q - left == p
        invariant if left >= 0 then b == Peek(input, p, left) else q == |input| && b == 0
        invariant q == next ==> left == bitsLeft
        invariant Filled(|input|, p, q) == Filled(|input|, p, next)
      {
        PeekAppendByte(input, p, left, q, 8);
        left, q, b := left + 8, q + 1, b + input[q] * Pow2(left);
      }
      zipeof := q == next;
      bitsLeft, next, bitbuf := left, q, b;
    }

    /** `READBITS(nbits, zdest)`: the next field, zero-extended if the stream ends inside it.
        Then the end of the file is reported only if there was nothing left to be taken. */
    method ReadBits(n: nat) returns (v: nat)
      requires Valid() && 0 < n <= RefillLimit
      modifies this
      ensures Valid() && Pos() == old(Pos()) + n && v == Peek(input, old(Pos()), n)
      ensures next == TakenAfter(|input|, old(Pos()), old(next), n)
      ensures zipeof <==> Ends(|input|, old(Pos()), old(next), n)
    {
      hide Peek, Pow2, Shr, Low;
      if n > bitsLeft {
        Refill();
      }
      Take(n);
      v := Low(n, bitbuf);
      bitbuf := Shr(bitbuf, n);
      bitsLeft := bitsLeft - n;
    }

    /** What is read, and what remains. */
    lemma Take(n: nat)
      requires Core() && (bitsLeft >= n || next == |input|)
      ensures Low(n, bitbuf) == Peek(input, Pos(), n)
      ensures bitsLeft >= n ==> Shr(bitbuf, n) == Peek(input, Pos() + n, bitsLeft - n)
      ensures bitsLeft < n ==> Shr(bitbuf, n) == 0
    {
      hide Peek, Low, Shr, Pow2;
      if bitsLeft >= n {
        PeekLow(input, Pos(), bitsLeft, n);
        PeekShr(input, Pos(), bitsLeft, n);
      } else if bitsLeft >= 0 {
        PeekPast(input, Pos(), bitsLeft, n);
        Whole(n, bitsLeft, bitbuf);
      } else {
        PeekOutside(input, Pos(), n);
        PowZero();
        Whole(n, 0, 0);
      }
    }
  }

  lemma Whole(n: nat, k: nat, x: nat)
    requires k <= n && x < Pow2(k)
    ensures Low(n, x) == x && Shr(x, n) == 0
  {
    hide Low, Shr, Pow2;
    Pow2Mono(k, n);
    LowSmall(n, x);
    ShrMono(x, n, 0);
    PowZero();
  }

  lemma PowZero()
    ensures Pow2(0) == 1
  {
  }
}
