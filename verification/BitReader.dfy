/** The bit buffer of the decoders: NEEDBITS and DUMPBITS over the bytes of one member. */
module BitReader {
  import opened Bits
  import opened BitStream

  const UlgBits: nat := 32  // the bit buffer is an unsigned long

  class BitReader {
    const input: seq<Byte>
    var next: nat   // bytes taken by NEXTBYTE
    var bb: nat     // bit buffer
    var bk: nat     // bits in bit buffer

    /** Position of the next unread bit. */
    ghost function Pos(): nat
      requires bk <= 8 * next
      reads this
    {
      8 * next - bk
    }

    /** The buffer holds exactly the `bk` bits that come next, and they fit. */
    ghost predicate Valid()
      reads this
    {
      next <= |input| && bk <= 8 * next && bk <= UlgBits && bb == Peek(input, Pos(), bk)
    }

    /** No byte has been taken but those up to the position, or up to `peek`. */
    ghost predicate Took(peek: nat)
      requires Valid()
      reads this
    {
      next == ByteBoundary(Max(Pos(), peek))
    }

    constructor (input: seq<Byte>)
      ensures Valid() && this.input == input && Pos() == 0 && next == 0
    {
      this.input := input;
      next, bb, bk := 0, 0, 0;
    }

    /** `NEEDBITS(n)`: fill the buffer to at least `n` bits, unless the member ends first. */
    method NeedBits(n: nat) returns (ok: bool)
      requires Valid() && n <= UlgBits - 8
      modifies this
      ensures Valid() && Pos() == old(Pos())
      ensures bk <= old(bk) || bk < n + 8
      ensures ok <==> Pos() + n <= BitLen(input)
      ensures ok ==> n <= bk && next == Max(old(next), ByteBoundary(Pos() + n))
    {
      hide Peek, Pow2, Shr, Low;
      ok := true;
      while bk < n
        invariant Valid() && Pos() == old(Pos())
        invariant old(next) <= next && (bk < n + 8 || next == old(next)) && (bk == old(bk) || bk < n + 8)
        decreases |input| - next
      {
        if next == |input| {
          return false;
        }
        PeekAppendByte(input, Pos(), bk, next, 8);
        bb := bb + input[next] * Pow2(bk);  // the bits from bk up are zero
        bk := bk + 8;
        next := next + 1;
      }
    }

    /** `DUMPBITS(n)`. */
    method DumpBits(n: nat)
      requires Valid() && n <= bk
      modifies this
      ensures Valid() && Pos() == old(Pos()) + n && bk == old(bk) - n && next == old(next)
    {
      hide Peek, Pow2, Shr, Low;
      PeekShr(input, Pos(), bk, n);
      bb := Shr(bb, n);
      bk := bk - n;
    }

    /** `b & mask_bits[n]`. */
    method Masked(n: nat) returns (v: nat)
      requires Valid() && n <= bk
      ensures v == Peek(input, Pos(), n)
    {
      hide Peek, Pow2, Low;
      PeekLow(input, Pos(), bk, n);
      v := Low(n, bb);
    }

    /** `NEEDBITS(n) v = b & mask_bits[n]; DUMPBITS(n)`: a plain field of the stream. */
    method ReadBits(n: nat) returns (ok: bool, v: nat)
      requires Valid() && n <= UlgBits - 8
      modifies this
      ensures Valid()
      ensures ok <==> old(Pos()) + n <= BitLen(input)
      ensures ok ==> v == Peek(input, old(Pos()), n) && Pos() == old(Pos()) + n
      ensures ok ==> next == Max(old(next), ByteBoundary(Pos()))
      ensures !ok ==> Pos() == old(Pos())
    {
      hide Peek, Pow2;
      v := 0;
      ok := NeedBits(n);
      if ok {
        v := Masked(n);
        DumpBits(n);
      }
    }
  }
}
